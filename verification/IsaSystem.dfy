/** Fences and the words of opcode SYSTEM (instructions.c:1774-1990), whose effect is the hart's. */
module IsaSystem {
  import opened Bits
  import opened Words
  import opened Rvc
  import opened RvcDecode
  import opened Core
  import opened Numbers
  import opened Shifts
  import opened Isa

  /** The instruction is left to the hart as `a`. */
  ghost predicate Asks(s: State, word: bv32, env: Env, a: Act) {
    Executed(s, word, env) == Deferred(a)
  }

  lemma SystemIs(s: State, i: bv32)
    requires Opcode(i) == 0x73 && Quadrant(i) == 3
    ensures Acts(s, i, SystemAct(s.x, i))
  {
    Dispatch(s.x, s.pc, s.unit.fs != 0, i, 0x73);
    hide BaseAct;
    hide SystemAct;
  }

  lemma Asked(s: State, word: bv32, env: Env, a: Act)
    requires Acts(s, word, a) && (a.Ecall? || a.Return? || a.Wait? || a.SyncTables? || a.Csr?)
    ensures Asks(s, word, env, a)
  {
    hide BaseAct;
    hide Quadrant;
    hide Plus;
    assert Executed(s, word, env) == Perform(s, a, word, 4, env);
  }

  // ---------- environment calls, returns and waiting ----------

  lemma Privileged(x: Regs)
    ensures SystemAct(x, 0x0000_0073) == Ecall && SystemAct(x, 0x0010_0073) == BREAKPOINT
    ensures SystemAct(x, 0x1020_0073) == Return(1) && SystemAct(x, 0x3020_0073) == Return(3)
    ensures SystemAct(x, 0x1050_0073) == Wait
  {
  }

  lemma PrivilegedWords()
    ensures forall i: bv32 :: i in {0x73, 0x10_0073, 0x1020_0073, 0x3020_0073, 0x1050_0073} ==> Opcode(i) == 0x73 && Quadrant(i) == 3
  {
  }

  lemma Broken(s: State, word: bv32, env: Env)
    requires Acts(s, word, BREAKPOINT)
    ensures Executed(s, word, env) == Raised(s, 3)
  {
    hide BaseAct;
    hide Quadrant;
    hide Plus;
    assert Executed(s, word, env) == Perform(s, BREAKPOINT, word, 4, env);
  }

  /** ecall, ebreak, sret, mret and wfi. */
  lemma Calls(s: State, env: Env)
    ensures Asks(s, 0x0000_0073, env, Ecall) && Executed(s, 0x0010_0073, env) == Raised(s, 3)
    ensures Asks(s, 0x1020_0073, env, Return(1)) && Asks(s, 0x3020_0073, env, Return(3)) && Asks(s, 0x1050_0073, env, Wait)
  {
    hide *;
    PrivilegedWords();
    Privileged(s.x);
    SystemIs(s, 0x0000_0073);
    SystemIs(s, 0x0010_0073);
    SystemIs(s, 0x1020_0073);
    SystemIs(s, 0x3020_0073);
    SystemIs(s, 0x1050_0073);
    Asked(s, 0x0000_0073, env, Ecall);
    Broken(s, 0x0010_0073, env);
    Asked(s, 0x1020_0073, env, Return(1));
    Asked(s, 0x3020_0073, env, Return(3));
    Asked(s, 0x1050_0073, env, Wait);
  }

  lemma VirtualFields(rs1: bv32, rs2: bv32)
    requires rs1 < 32 && rs2 < 32
    ensures var i := RType(0x1200_0073, 0, rs1, rs2); Opcode(i) == 0x73 && Quadrant(i) == 3 && Funct3(i) == 0
  {
  }

  lemma VirtualActs(x: Regs, rs1: bv32, rs2: bv32)
    requires rs1 < 32 && rs2 < 32
    ensures SystemCall(RType(0x1200_0073, 0, rs1, rs2)) == SyncTables
  {
  }

  lemma CallsAre(x: Regs, i: bv32)
    requires Funct3(i) == 0
    ensures SystemAct(x, i) == SystemCall(i)
  {
    hide Funct3;
    hide SystemCall;
  }

  /** sfence.vma, for every pair of registers. */
  lemma Synchronizes(s: State, env: Env, rs1: bv32, rs2: bv32)
    requires rs1 < 32 && rs2 < 32
    ensures Asks(s, RType(0x1200_0073, 0, rs1, rs2), env, SyncTables)
  {
    hide *;
    var i := RType(0x1200_0073, 0, rs1, rs2);
    VirtualFields(rs1, rs2);
    VirtualActs(s.x, rs1, rs2);
    CallsAre(s.x, i);
    SystemIs(s, i);
    Asked(s, i, env, SyncTables);
  }

  // ---------- control and status registers ----------

  lemma CsrFields(code: bv32, f3: bv32, rd: bv32, rs1: bv32, csr: bv32)
    requires Code(code, 0x73, f3, 0) && rd < 32 && rs1 < 32 && csr < 0x1000
    ensures var i := IType(code, rd, rs1, csr);
      Opcode(i) == 0x73 && Quadrant(i) == 3 && Funct3(i) == f3 && Rd(i) == rd && Rs1(i) == rs1 && i >> 20 == csr
  {
  }

  lemma CsrShape(x: Regs, i: bv32)
    ensures var csr, rd, rs1 := i >> 20, Rd(i), Rs1(i); var writes := rs1 != 0;
      && (Funct3(i) == 1 ==> SystemAct(x, i) == Csr(csr, 1, rd, x(rs1), true))
      && (Funct3(i) == 2 ==> SystemAct(x, i) == Csr(csr, 2, rd, x(rs1), writes))
      && (Funct3(i) == 3 ==> SystemAct(x, i) == Csr(csr, 3, rd, x(rs1), writes))
  {
    hide Funct3;
    hide Rs1;
    hide Rd;
    hide SystemCall;
  }

  lemma CsrImmediates(x: Regs, i: bv32)
    ensures var csr, rd, rs1 := i >> 20, Rd(i), Rs1(i); var writes := rs1 != 0;
      && (Funct3(i) == 5 ==> SystemAct(x, i) == Csr(csr, 1, rd, Wide(rs1), true))
      && (Funct3(i) == 6 ==> SystemAct(x, i) == Csr(csr, 2, rd, Wide(rs1), writes))
      && (Funct3(i) == 7 ==> SystemAct(x, i) == Csr(csr, 3, rd, Wide(rs1), writes))
  {
    hide Funct3;
    hide Rs1;
    hide Rd;
    hide SystemCall;
  }

  lemma CsrCodes()
    ensures Code(0x1073, 0x73, 1, 0) && Code(0x2073, 0x73, 2, 0) && Code(0x3073, 0x73, 3, 0)
    ensures Code(0x5073, 0x73, 5, 0) && Code(0x6073, 0x73, 6, 0) && Code(0x7073, 0x73, 7, 0)
  {
  }

  lemma ByCsr(s: State, env: Env, code: bv32, f3: bv32, rd: bv32, rs1: bv32, csr: bv32, a: Act)
    requires Code(code, 0x73, f3, 0) && rd < 32 && rs1 < 32 && csr < 0x1000 && a.Csr? && f3 in {1, 2, 3}
    requires f3 == 1 ==> a == Csr(csr, 1, rd, s.x(rs1), true)
    requires f3 == 2 ==> a == Csr(csr, 2, rd, s.x(rs1), rs1 != 0)
    requires f3 == 3 ==> a == Csr(csr, 3, rd, s.x(rs1), rs1 != 0)
    ensures Asks(s, IType(code, rd, rs1, csr), env, a)
  {
    hide *;
    var i := IType(code, rd, rs1, csr);
    CsrFields(code, f3, rd, rs1, csr);
    CsrShape(s.x, i);
    SystemIs(s, i);
    Asked(s, i, env, a);
  }

  lemma ByCsrImmediate(s: State, env: Env, code: bv32, f3: bv32, rd: bv32, rs1: bv32, csr: bv32, a: Act)
    requires Code(code, 0x73, f3, 0) && rd < 32 && rs1 < 32 && csr < 0x1000 && a.Csr? && f3 in {5, 6, 7}
    requires f3 == 5 ==> a == Csr(csr, 1, rd, Wide(rs1), true)
    requires f3 == 6 ==> a == Csr(csr, 2, rd, Wide(rs1), rs1 != 0)
    requires f3 == 7 ==> a == Csr(csr, 3, rd, Wide(rs1), rs1 != 0)
    ensures Asks(s, IType(code, rd, rs1, csr), env, a)
  {
    hide *;
    var i := IType(code, rd, rs1, csr);
    CsrFields(code, f3, rd, rs1, csr);
    CsrImmediates(s.x, i);
    SystemIs(s, i);
    Asked(s, i, env, a);
  }

  /** csrrw, csrrs and csrrc, and their forms with a five-bit operand: the named register, the
      operation, the operand, and a write except for the last two with register or operand 0. */
  lemma CsrWords(s: State, env: Env, rd: bv32, rs1: bv32, csr: bv32)
    requires rd < 32 && rs1 < 32 && csr < 0x1000
    ensures var v, writes := s.x(rs1), rs1 != 0;
      && Asks(s, IType(0x1073, rd, rs1, csr), env, Csr(csr, 1, rd, v, true))
      && Asks(s, IType(0x2073, rd, rs1, csr), env, Csr(csr, 2, rd, v, writes))
      && Asks(s, IType(0x3073, rd, rs1, csr), env, Csr(csr, 3, rd, v, writes))
      && Asks(s, IType(0x5073, rd, rs1, csr), env, Csr(csr, 1, rd, Wide(rs1), true))
      && Asks(s, IType(0x6073, rd, rs1, csr), env, Csr(csr, 2, rd, Wide(rs1), writes))
      && Asks(s, IType(0x7073, rd, rs1, csr), env, Csr(csr, 3, rd, Wide(rs1), writes))
  {
    hide *;
    CsrCodes();
    var v, writes := s.x(rs1), rs1 != 0;
    ByCsr(s, env, 0x1073, 1, rd, rs1, csr, Csr(csr, 1, rd, v, true));
    ByCsr(s, env, 0x2073, 2, rd, rs1, csr, Csr(csr, 2, rd, v, writes));
    ByCsr(s, env, 0x3073, 3, rd, rs1, csr, Csr(csr, 3, rd, v, writes));
    ByCsrImmediate(s, env, 0x5073, 5, rd, rs1, csr, Csr(csr, 1, rd, Wide(rs1), true));
    ByCsrImmediate(s, env, 0x6073, 6, rd, rs1, csr, Csr(csr, 2, rd, Wide(rs1), writes));
    ByCsrImmediate(s, env, 0x7073, 7, rd, rs1, csr, Csr(csr, 3, rd, Wide(rs1), writes));
  }

  // ---------- fences ----------

  /** `order` has the predecessor and successor bits. */
  lemma FenceActs(x: Regs, pc: bv64, fpOn: bool, order: bv32)
    requires order < 256
    ensures var i := 0x0000_000F | (order << 20); BaseAct(x, pc, fpOn, i) == Next && Quadrant(i) == 3
  {
  }

  lemma FenceInstActs(x: Regs, pc: bv64, fpOn: bool)
    ensures BaseAct(x, pc, fpOn, 0x0000_100F) == Next && Quadrant(0x0000_100F) == 3
  {
  }

  lemma Passed(s: State, word: bv32, env: Env)
    requires Acts(s, word, Next)
    ensures Went(s, Executed(s, word, env), After(s))
  {
    hide BaseAct;
    hide Num;
    hide Quadrant;
    NextPc(s.pc);
    hide Plus;
    assert Executed(s, word, env) == Perform(s, Next, word, 4, env);
  }

  /** fence and fence.i do nothing on one hart. */
  lemma Fences(s: State, env: Env, order: bv32)
    requires order < 256
    ensures Went(s, Executed(s, 0x0000_000F | (order << 20), env), After(s))
    ensures Went(s, Executed(s, 0x0000_100F, env), After(s))
  {
    FenceActs(s.x, s.pc, s.unit.fs != 0, order);
    FenceInstActs(s.x, s.pc, s.unit.fs != 0);
    hide BaseAct;
    hide Quadrant;
    hide Went;
    hide Executed;
    Passed(s, 0x0000_000F | (order << 20), env);
    Passed(s, 0x0000_100F, env);
  }
}
