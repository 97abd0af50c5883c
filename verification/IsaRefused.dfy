/** Which full-size words are no instruction (instructions.c:771-2195). */
module IsaRefused {
  import opened Words
  import opened Rvc
  import opened RvcDecode
  import opened Core
  import opened Isa

  // the bits of the function fields
  function F3(i: bv32): bv32 { i & 0x7000 }
  function F7(i: bv32): bv32 { i & 0xFE00_0000 }

  /** The words with a meaning, by their bits, floating-point arithmetic aside. The code checks less than the
      tables for jalr, whose function field may be anything, and for wfi, whose source register may. */
  predicate Assigned(i: bv32) {
    match i & 0x7F
    case 0x37 => true
    case 0x17 => true
    case 0x6F => true
    case 0x67 => true
    case 0x63 => F3(i) != 0x2000 && F3(i) != 0x3000
    case 0x03 => F3(i) != 0x7000
    case 0x23 => F3(i) < 0x4000
    case 0x07 => F3(i) == 0x2000 || F3(i) == 0x3000
    case 0x27 => F3(i) == 0x2000 || F3(i) == 0x3000
    case 0x13 => (F3(i) == 0x1000 ==> i & 0xFC00_0000 == 0) && (F3(i) == 0x5000 ==> i & 0xBC00_0000 == 0)
    case 0x1B => F3(i) == 0 || (F3(i) == 0x1000 && F7(i) == 0) || (F3(i) == 0x5000 && i & 0xBE00_0000 == 0)
    case 0x33 => F7(i) == 0 || F7(i) == 0x0200_0000 || (F7(i) == 0x4000_0000 && (F3(i) == 0 || F3(i) == 0x5000))
    case 0x3B => AssignedWord(i)
    case 0x2F => AssignedAtomic(i)
    case 0x0F => i & 0xF00F_FF80 == 0 || i == 0x0000_100F
    case 0x73 => AssignedSystem(i)
    case _ => false
  }

  predicate AssignedWord(i: bv32) {
    || (F7(i) == 0 && (F3(i) == 0 || F3(i) == 0x1000 || F3(i) == 0x5000))
    || (F7(i) == 0x0200_0000 && (F3(i) == 0 || F3(i) >= 0x4000))
    || (F7(i) == 0x4000_0000 && (F3(i) == 0 || F3(i) == 0x5000))
  }

  predicate AssignedAtomic(i: bv32) {
    && (F3(i) == 0x2000 || F3(i) == 0x3000)
    && (i & 0x1800_0000 == 0 || i & 0xF800_0000 == 0x0800_0000 || i & 0xF800_0000 == 0x1800_0000 || i & 0xF9F0_0000 == 0x1000_0000)
  }

  predicate AssignedSystem(i: bv32) {
    || (F3(i) != 0 && F3(i) != 0x4000)
    || i == 0x0000_0073 || i == 0x0010_0073 || i == 0x1020_0073 || i == 0x3020_0073
    || i & 0xFFF0_7FFF == 0x1050_0073 || i & 0xFE00_7FFF == 0x1200_0073
  }

  lemma RefusedLoad(x: Regs, pc: bv64, fpOn: bool, i: bv32)
    requires Opcode(i) == 0x03
    ensures LoadAct(x, Funct3(i), Rd(i), Rs1(i), Sx(ImmI(i))) == ILLEGAL <==> !Assigned(i)
  {
    hide Rd;
    hide Rs1;
    hide ImmI;
    hide Sx;
    hide Plus;
  }

  lemma RefusedStore(x: Regs, pc: bv64, fpOn: bool, i: bv32)
    requires Opcode(i) == 0x23
    ensures StoreAct(x, Funct3(i), Rs1(i), Rs2(i), Sx(ImmS(i))) == ILLEGAL <==> !Assigned(i)
  {
    hide Rs1;
    hide Rs2;
    hide ImmS;
    hide Sx;
    hide Plus;
  }

  lemma RefusedFloatLoad(x: Regs, pc: bv64, fpOn: bool, i: bv32)
    requires Opcode(i) == 0x07
    ensures FpLoadAct(x, true, Funct3(i), Rd(i), Rs1(i), Sx(ImmI(i))) == ILLEGAL <==> !Assigned(i)
  {
    hide Rd;
    hide Rs1;
    hide ImmI;
    hide Sx;
    hide Plus;
  }

  lemma RefusedFloatStore(x: Regs, pc: bv64, fpOn: bool, i: bv32)
    requires Opcode(i) == 0x27
    ensures FpStoreAct(x, true, Funct3(i), Rs1(i), Rs2(i), Sx(ImmS(i))) == ILLEGAL <==> !Assigned(i)
  {
    hide Rs1;
    hide Rs2;
    hide ImmS;
    hide Sx;
    hide Plus;
  }

  lemma RefusedBranch(x: Regs, pc: bv64, fpOn: bool, i: bv32)
    requires Opcode(i) == 0x63
    ensures BranchAct(x, pc, Funct3(i), Rs1(i), Rs2(i), Sx(ImmB(i))) == ILLEGAL <==> !Assigned(i)
  {
    hide Rs1;
    hide Rs2;
    hide ImmB;
    hide Sx;
    hide Plus;
    hide Less;
  }

  lemma RefusedReg(x: Regs, pc: bv64, fpOn: bool, i: bv32)
    requires Opcode(i) == 0x33
    ensures RegAct(x, Funct3(i), Funct7(i), Rd(i), Rs1(i), Rs2(i)) == ILLEGAL <==> !Assigned(i)
  {
    hide Rd;
    hide Rs1;
    hide Rs2;
    hide Plus;
    hide Minus;
    hide And64;
    hide Less;
    hide Flag;
    hide MulDiv;
    hide Sll64;
    hide Srl64;
    hide Sra64;
  }

  lemma RefusedReg32(x: Regs, pc: bv64, fpOn: bool, i: bv32)
    requires Opcode(i) == 0x3B
    ensures Reg32Act(x, Funct3(i), Funct7(i), Rd(i), Rs1(i), Rs2(i)) == ILLEGAL <==> !Assigned(i)
  {
    hide Rd;
    hide Rs1;
    hide Rs2;
    hide Plus;
    hide Minus;
    hide Word;
    hide SllW;
    hide SrlW;
    hide SraW;
    hide MulDiv32;
  }

  lemma RefusedImm(x: Regs, pc: bv64, fpOn: bool, i: bv32)
    requires Opcode(i) == 0x13
    ensures ImmAct(x, Funct3(i), Rd(i), Rs1(i), Sx(ImmI(i))) == ILLEGAL <==> !Assigned(i)
  {
    hide Rd;
    hide Rs1;
    hide Plus;
    hide And64;
    hide Less;
    hide Flag;
    hide Sll64;
    hide Srl64;
    hide Sra64;
  }

  lemma RefusedImm32(x: Regs, pc: bv64, fpOn: bool, i: bv32)
    requires Opcode(i) == 0x1B
    ensures Imm32Act(x, Funct3(i), Rd(i), Rs1(i), Sx(ImmI(i))) == ILLEGAL <==> !Assigned(i)
  {
    hide Rd;
    hide Rs1;
    hide Plus;
    hide Word;
    hide SllW;
    hide SrlW;
    hide SraW;
  }

  lemma RefusedAtomic(x: Regs, pc: bv64, fpOn: bool, i: bv32)
    requires Opcode(i) == 0x2F
    ensures AtomicAct(x, i) == ILLEGAL <==> !Assigned(i)
  {
    hide Rd;
    hide Rs1;
  }

  lemma RefusedFence(x: Regs, pc: bv64, fpOn: bool, i: bv32)
    requires Opcode(i) == 0x0F
    ensures FenceAct(i) == ILLEGAL <==> !Assigned(i)
  {
  }

  lemma RefusedCall(i: bv32)
    requires Opcode(i) == 0x73 && Funct3(i) == 0
    ensures SystemCall(i) == ILLEGAL <==> !AssignedSystem(i)
  {
  }

  lemma CsrFunct(i: bv32)
    requires Funct3(i) != 0 && Funct3(i) != 4
    ensures AssignedSystem(i)
  {
  }

  lemma NoFunct(i: bv32)
    requires Opcode(i) == 0x73 && Funct3(i) == 4
    ensures !AssignedSystem(i)
  {
  }

  lemma RefusedSystem(x: Regs, i: bv32)
    requires Opcode(i) == 0x73
    ensures SystemAct(x, i) == ILLEGAL <==> !AssignedSystem(i)
  {
    FunctSmall(i);
    if Funct3(i) == 0 {
      RefusedCall(i);
    } else if Funct3(i) == 4 {
      NoFunct(i);
    } else {
      CsrFunct(i);
    }
    hide Opcode;
    hide Funct3;
    hide Rd;
    hide Rs1;
    hide SystemCall;
    hide AssignedSystem;
  }

  lemma FunctSmall(i: bv32)
    ensures Funct3(i) in {0, 1, 2, 3, 4, 5, 6, 7}
  {
  }

  // ---------- all of them ----------

  predicate FloatOpcode(op: bv32) {
    op == 0x43 || op == 0x47 || op == 0x4B || op == 0x4F || op == 0x53
  }

  lemma KnownOpcode(i: bv32)
    requires Opcode(i) !in {0x37, 0x17, 0x6F, 0x67, 0x63, 0x03, 0x23, 0x07, 0x27, 0x13, 0x1B, 0x33, 0x3B, 0x2F, 0x0F, 0x73}
    ensures !Assigned(i)
  {
  }

  lemma AlwaysAssigned(i: bv32)
    requires Opcode(i) in {0x37, 0x17, 0x6F, 0x67}
    ensures Assigned(i)
  {
  }

  lemma SystemAssigned(i: bv32)
    requires Opcode(i) == 0x73
    ensures Assigned(i) <==> AssignedSystem(i)
  {
    hide AssignedSystem;
  }

  /** The floating-point loads and stores need the unit. */
  predicate Unusable(s: State, i: bv32) {
    !Assigned(i) || (s.unit.fs == 0 && (Opcode(i) == 0x07 || Opcode(i) == 0x27))
  }

  lemma Others(x: Regs, pc: bv64, fpOn: bool, i: bv32)
    ensures Opcode(i) == 0x17 ==> BaseAct(x, pc, fpOn, i) == Set(Rd(i), Plus(pc, Sx(ImmU(i))))
    ensures Opcode(i) == 0x0F ==> BaseAct(x, pc, fpOn, i) == FenceAct(i)
    ensures Opcode(i) == 0x2F ==> BaseAct(x, pc, fpOn, i) == AtomicAct(x, i)
  {
    hide Opcode;
    hide FenceAct;
    hide AtomicAct;
    hide Set;
  }

  lemma Unknown(x: Regs, pc: bv64, fpOn: bool, i: bv32)
    requires Opcode(i) !in {0x37, 0x17, 0x6F, 0x67, 0x63, 0x03, 0x23, 0x07, 0x27, 0x13, 0x1B, 0x33, 0x3B, 0x2F, 0x0F, 0x73}
    requires !FloatOpcode(Opcode(i))
    ensures BaseAct(x, pc, fpOn, i) == ILLEGAL
  {
    hide Opcode;
  }

  lemma NeverIllegal(x: Regs, rd: bv32, rs1: bv32, imm: bv64, target: bv64)
    ensures Set(rd, imm) != ILLEGAL && Jump(target, rd) != ILLEGAL && JumpRegAct(x, rd, rs1, imm) != ILLEGAL
  {
  }

  lemma RefusedAccess(s: State, i: bv32)
    requires Opcode(i) in {0x03, 0x23, 0x07, 0x27, 0x63}
    ensures BaseAct(s.x, s.pc, s.unit.fs != 0, i) == ILLEGAL <==> Unusable(s, i)
  {
    hide BaseAct;
    hide Opcode;
    hide Funct3;
    hide Funct7;
    hide Rd;
    hide Rs1;
    hide Rs2;
    hide ImmI;
    hide ImmS;
    hide ImmB;
    hide ImmU;
    hide ImmJ;
    hide Sx;
    hide Plus;
    hide Assigned;
    hide LoadAct;
    hide StoreAct;
    hide FpLoadAct;
    hide FpStoreAct;
    hide BranchAct;
    hide RegAct;
    hide Reg32Act;
    hide ImmAct;
    hide Imm32Act;
    hide AtomicAct;
    hide FenceAct;
    hide SystemAct;
    hide JumpRegAct;
    hide Jump;
    hide Set;
    var x, pc, on := s.x, s.pc, s.unit.fs != 0;
    Dispatch(x, pc, on, i, Opcode(i));
    match Opcode(i) {
      case 0x03 => RefusedLoad(x, pc, true, i);
      case 0x23 => RefusedStore(x, pc, true, i);
      case 0x07 => RefusedFloatLoad(x, pc, true, i); UnitLoad(s, i);
      case 0x27 => RefusedFloatStore(x, pc, true, i); UnitStore(s, i);
      case 0x63 => RefusedBranch(x, pc, true, i);
    }
  }

  lemma RefusedValue(s: State, i: bv32)
    requires Opcode(i) in {0x33, 0x3B, 0x13, 0x1B}
    ensures BaseAct(s.x, s.pc, s.unit.fs != 0, i) == ILLEGAL <==> Unusable(s, i)
  {
    hide BaseAct;
    hide Opcode;
    hide Funct3;
    hide Funct7;
    hide Rd;
    hide Rs1;
    hide Rs2;
    hide ImmI;
    hide ImmS;
    hide ImmB;
    hide ImmU;
    hide ImmJ;
    hide Sx;
    hide Plus;
    hide Assigned;
    hide LoadAct;
    hide StoreAct;
    hide FpLoadAct;
    hide FpStoreAct;
    hide BranchAct;
    hide RegAct;
    hide Reg32Act;
    hide ImmAct;
    hide Imm32Act;
    hide AtomicAct;
    hide FenceAct;
    hide SystemAct;
    hide JumpRegAct;
    hide Jump;
    hide Set;
    var x, pc, on := s.x, s.pc, s.unit.fs != 0;
    Dispatch(x, pc, on, i, Opcode(i));
    match Opcode(i) {
      case 0x33 => RefusedReg(x, pc, true, i);
      case 0x3B => RefusedReg32(x, pc, true, i);
      case 0x13 => RefusedImm(x, pc, true, i);
      case 0x1B => RefusedImm32(x, pc, true, i);
    }
  }

  lemma RefusedOther(s: State, i: bv32)
    requires Opcode(i) !in {0x03, 0x23, 0x07, 0x27, 0x63, 0x33, 0x3B, 0x13, 0x1B} && !FloatOpcode(Opcode(i))
    ensures BaseAct(s.x, s.pc, s.unit.fs != 0, i) == ILLEGAL <==> Unusable(s, i)
  {
    hide BaseAct;
    hide Opcode;
    hide Funct3;
    hide Funct7;
    hide Rd;
    hide Rs1;
    hide Rs2;
    hide ImmI;
    hide ImmS;
    hide ImmB;
    hide ImmU;
    hide ImmJ;
    hide Sx;
    hide Plus;
    hide Assigned;
    hide LoadAct;
    hide StoreAct;
    hide FpLoadAct;
    hide FpStoreAct;
    hide BranchAct;
    hide RegAct;
    hide Reg32Act;
    hide ImmAct;
    hide Imm32Act;
    hide AtomicAct;
    hide FenceAct;
    hide SystemAct;
    hide JumpRegAct;
    hide Jump;
    hide Set;
    var x, pc, on := s.x, s.pc, s.unit.fs != 0;
    Dispatch(x, pc, on, i, Opcode(i));
    Others(x, pc, on, i);
    match Opcode(i) {
      case 0x2F => RefusedAtomic(x, pc, true, i);
      case 0x0F => RefusedFence(x, pc, true, i);
      case 0x73 => RefusedSystem(x, i); SystemAssigned(i);
      case 0x37 => AlwaysAssigned(i); NeverIllegal(x, Rd(i), Rs1(i), Sx(ImmU(i)), pc);
      case 0x17 => AlwaysAssigned(i); NeverIllegal(x, Rd(i), Rs1(i), Plus(pc, Sx(ImmU(i))), pc);
      case 0x6F => AlwaysAssigned(i); NeverIllegal(x, Rd(i), Rs1(i), Sx(ImmU(i)), Plus(pc, Sx(ImmJ(i))));
      case 0x67 => AlwaysAssigned(i); NeverIllegal(x, Rd(i), Rs1(i), Sx(ImmI(i)), pc);
      case _ => KnownOpcode(i); Unknown(x, pc, on, i);
    }
  }

  lemma RefusedAct(s: State, i: bv32)
    requires !FloatOpcode(Opcode(i))
    ensures BaseAct(s.x, s.pc, s.unit.fs != 0, i) == ILLEGAL <==> Unusable(s, i)
  {
    hide *;
    if Opcode(i) in {0x03, 0x23, 0x07, 0x27, 0x63} {
      RefusedAccess(s, i);
    } else if Opcode(i) in {0x33, 0x3B, 0x13, 0x1B} {
      RefusedValue(s, i);
    } else {
      RefusedOther(s, i);
    }
  }

  lemma UnitLoad(s: State, i: bv32)
    ensures s.unit.fs == 0 ==> FpLoadAct(s.x, s.unit.fs != 0, Funct3(i), Rd(i), Rs1(i), Sx(ImmI(i))) == ILLEGAL
  {
  }

  lemma UnitStore(s: State, i: bv32)
    ensures s.unit.fs == 0 ==> FpStoreAct(s.x, s.unit.fs != 0, Funct3(i), Rs1(i), Rs2(i), Sx(ImmS(i))) == ILLEGAL
  {
  }

  lemma RefusalOf(s: State, a: Act, i: bv32, env: Env)
    requires env.first.Done? && env.second.Done? && !a.Float?
    ensures var r := Perform(s, a, i, 4, env); r.Raised? && r.cause == 2 && r.state == s.(tval := i as bv64) <==> a == ILLEGAL
  {
    hide Plus;
    hide Extended;
    hide AtomicValue;
  }

  lemma MemoryActs(x: Regs, fpOn: bool, f3: bv32, rd: bv32, rs1: bv32, rs2: bv32, imm: bv64)
    ensures !LoadAct(x, f3, rd, rs1, imm).Float? && !StoreAct(x, f3, rs1, rs2, imm).Float?
    ensures !FpLoadAct(x, fpOn, f3, rd, rs1, imm).Float? && !FpStoreAct(x, fpOn, f3, rs1, rs2, imm).Float?
  {
    hide Plus;
  }

  lemma ImmediateActs(x: Regs, f3: bv32, rd: bv32, rs1: bv32, imm: bv64)
    ensures !ImmAct(x, f3, rd, rs1, imm).Float? && !Imm32Act(x, f3, rd, rs1, imm).Float?
  {
    hide Plus;
    hide Minus;
    hide And64;
    hide Less;
    hide Flag;
    hide Word;
    hide Sll64;
    hide Srl64;
    hide Sra64;
    hide SllW;
    hide SrlW;
    hide SraW;
    hide MulDiv;
    hide MulDiv32;
  }

  lemma RegisterActs(x: Regs, f3: bv32, f7: bv32, rd: bv32, rs1: bv32, rs2: bv32)
    ensures !RegAct(x, f3, f7, rd, rs1, rs2).Float? && !Reg32Act(x, f3, f7, rd, rs1, rs2).Float?
  {
    hide Plus;
    hide Minus;
    hide And64;
    hide Less;
    hide Flag;
    hide Word;
    hide Sll64;
    hide Srl64;
    hide Sra64;
    hide SllW;
    hide SrlW;
    hide SraW;
    hide MulDiv;
    hide MulDiv32;
  }

  lemma FlowActs(x: Regs, pc: bv64, f3: bv32, rd: bv32, rs1: bv32, rs2: bv32, imm: bv64, target: bv64, i: bv32)
    ensures !BranchAct(x, pc, f3, rs1, rs2, imm).Float? && !JumpRegAct(x, rd, rs1, imm).Float? && !Jump(target, rd).Float?
    ensures !SystemAct(x, i).Float? && !FenceAct(i).Float? && !AtomicAct(x, i).Float?
  {
    hide Plus;
    hide Less;
    hide Funct3;
    hide Rd;
    hide Rs1;
    hide Rs2;
  }

  lemma NotFloat(s: State, i: bv32)
    requires !FloatOpcode(Opcode(i))
    ensures !BaseAct(s.x, s.pc, s.unit.fs != 0, i).Float?
  {
    hide Opcode;
    hide Funct3;
    hide Funct7;
    hide Rd;
    hide Rs1;
    hide Rs2;
    hide ImmI;
    hide ImmS;
    hide ImmB;
    hide ImmU;
    hide ImmJ;
    hide Sx;
    hide Plus;
    hide LoadAct;
    hide StoreAct;
    hide FpLoadAct;
    hide FpStoreAct;
    hide BranchAct;
    hide RegAct;
    hide Reg32Act;
    hide ImmAct;
    hide Imm32Act;
    hide AtomicAct;
    hide FenceAct;
    hide SystemAct;
    hide JumpRegAct;
    hide Jump;
    var f3, f7, rd, rs1, rs2 := Funct3(i), Funct7(i), Rd(i), Rs1(i), Rs2(i);
    MemoryActs(s.x, s.unit.fs != 0, f3, rd, rs1, rs2, Sx(ImmI(i)));
    MemoryActs(s.x, s.unit.fs != 0, f3, rd, rs1, rs2, Sx(ImmS(i)));
    ImmediateActs(s.x, f3, rd, rs1, Sx(ImmI(i)));
    RegisterActs(s.x, f3, f7, rd, rs1, rs2);
    FlowActs(s.x, s.pc, f3, rd, rs1, rs2, Sx(ImmI(i)), Plus(s.pc, Sx(ImmJ(i))), i);
    FlowActs(s.x, s.pc, f3, rd, rs1, rs2, Sx(ImmB(i)), s.pc, i);
  }

  /** A full-size word is refused as illegal exactly if it has no meaning. */
  lemma RefusedIff(s: State, i: bv32, env: Env)
    requires Quadrant(i) == 3 && !FloatOpcode(Opcode(i)) && env.first.Done? && env.second.Done?
    ensures Refuses(s, i, env) <==> Unusable(s, i)
  {
    hide BaseAct;
    hide Unusable;
    hide Quadrant;
    hide Opcode;
    hide Perform;
    hide Expand;
    RefusedAct(s, i);
    NotFloat(s, i);
    RefusalOf(s, BaseAct(s.x, s.pc, s.unit.fs != 0, i), i, env);
  }
}
