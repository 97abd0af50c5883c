/** Jumps, branches and upper immediates (instructions.c:771-796, 1718-1779). */
module IsaFlow {
  import opened Bits
  import opened Words
  import opened Rvc
  import opened RvcDecode
  import opened Core
  import opened Numbers
  import opened Shifts
  import opened Isa

  // ---------- the words ----------

  lemma BTypeFields(code: bv32, f3: bv32, rs1: bv32, rs2: bv32, imm: bv32)
    requires Code(code, 0x63, f3, 0) && rs1 < 32 && rs2 < 32
    ensures var i := BType(code, rs1, rs2, imm); Opcode(i) == 0x63 && Funct3(i) == f3 && Rs1(i) == rs1 && Rs2(i) == rs2
  {
  }

  lemma BTypeNegative(code: bv32, rs1: bv32, rs2: bv32, imm: bv32)
    requires code < 0x8000 && code & 0xF80 == 0 && rs1 < 32 && rs2 < 32 && imm & 0x1001 == 0x1000
    ensures ImmB(BType(code, rs1, rs2, imm)) == imm | 0xFFFF_E000
  {
  }

  lemma BTypePositive(code: bv32, rs1: bv32, rs2: bv32, imm: bv32)
    requires code < 0x8000 && code & 0xF80 == 0 && rs1 < 32 && rs2 < 32 && imm & 0x1001 == 0
    ensures ImmB(BType(code, rs1, rs2, imm)) == imm & 0x1FFF
  {
  }

  lemma BTypeImm(code: bv32, f3: bv32, rs1: bv32, rs2: bv32, imm: bv32)
    requires Code(code, 0x63, f3, 0) && rs1 < 32 && rs2 < 32 && imm & 1 == 0
    ensures ImmB(BType(code, rs1, rs2, imm)) == Ext(imm, 13)
  {
    hide Sra;
    hide BType;
    hide ImmB;
    Ext13(imm);
    if imm & 0x1000 != 0 {
      Sra13Negative(imm);
      BTypeNegative(code, rs1, rs2, imm);
    } else {
      Sra13Positive(imm);
      BTypePositive(code, rs1, rs2, imm);
    }
    hide Ext;
  }

  lemma UTypeFields(code: bv32, op: bv32, rd: bv32, imm: bv32)
    requires Code(code, op, 0, 0) && rd < 32
    ensures var i := UType(code, rd, imm); Opcode(i) == op && Rd(i) == rd && ImmU(i) == imm & 0xFFFF_F000
  {
  }

  lemma JTypeFields(code: bv32, rd: bv32, imm: bv32)
    requires Code(code, 0x6F, 0, 0) && rd < 32
    ensures var i := JType(code, rd, imm); Opcode(i) == 0x6F && Rd(i) == rd
  {
  }

  lemma JTypeNegative(code: bv32, rd: bv32, imm: bv32)
    requires code < 128 && rd < 32 && imm & 0x10_0001 == 0x10_0000
    ensures ImmJ(JType(code, rd, imm)) == imm | 0xFFE0_0000
  {
  }

  lemma JTypePositive(code: bv32, rd: bv32, imm: bv32)
    requires code < 128 && rd < 32 && imm & 0x10_0001 == 0
    ensures ImmJ(JType(code, rd, imm)) == imm & 0x1F_FFFF
  {
  }

  lemma JTypeImm(code: bv32, rd: bv32, imm: bv32)
    requires code < 128 && rd < 32 && imm & 1 == 0
    ensures ImmJ(JType(code, rd, imm)) == Ext(imm, 21)
  {
    hide Sra;
    hide JType;
    hide ImmJ;
    Ext21(imm);
    if imm & 0x10_0000 != 0 {
      Sra21Negative(imm);
      JTypeNegative(code, rd, imm);
    } else {
      Sra21Positive(imm);
      JTypePositive(code, rd, imm);
    }
    hide Ext;
  }

  // ---------- from words to acts ----------

  lemma BranchWord(s: State, code: bv32, f3: bv32, rs1: bv32, rs2: bv32, imm: bv32)
    requires Code(code, 0x63, f3, 0) && rs1 < 32 && rs2 < 32 && imm & 1 == 0
    ensures Acts(s, BType(code, rs1, rs2, imm), BranchAct(s.x, s.pc, f3, rs1, rs2, Sx(Ext(imm, 13))))
  {
    BTypeFields(code, f3, rs1, rs2, imm);
    BTypeImm(code, f3, rs1, rs2, imm);
    hide *;
    Dispatch(s.x, s.pc, s.unit.fs != 0, BType(code, rs1, rs2, imm), 0x63);
    FullSize(BType(code, rs1, rs2, imm));
    BranchIs(s, BType(code, rs1, rs2, imm));
  }

  lemma BranchIs(s: State, i: bv32)
    requires Opcode(i) == 0x63 && Quadrant(i) == 3
    ensures Acts(s, i, BranchAct(s.x, s.pc, Funct3(i), Rs1(i), Rs2(i), Sx(ImmB(i))))
  {
    Dispatch(s.x, s.pc, s.unit.fs != 0, i, 0x63);
    hide BaseAct;
    hide BranchAct;
  }

  lemma JumpIs(s: State, i: bv32)
    requires Opcode(i) == 0x6F && Quadrant(i) == 3
    ensures Acts(s, i, Jump(Plus(s.pc, Sx(ImmJ(i))), Rd(i)))
  {
    Dispatch(s.x, s.pc, s.unit.fs != 0, i, 0x6F);
    hide BaseAct;
    hide Jump;
  }

  lemma UpperIs(s: State, i: bv32)
    requires Opcode(i) == 0x37 && Quadrant(i) == 3
    ensures Acts(s, i, Set(Rd(i), Sx(ImmU(i))))
  {
    Dispatch(s.x, s.pc, s.unit.fs != 0, i, 0x37);
    hide BaseAct;
    hide Set;
  }

  lemma PcRelativeIs(s: State, i: bv32)
    requires Opcode(i) == 0x17 && Quadrant(i) == 3
    ensures Acts(s, i, Set(Rd(i), Plus(s.pc, Sx(ImmU(i)))))
  {
    hide Opcode;
    hide Set;
    hide Plus;
    hide Sx;
    hide ImmU;
    hide Rd;
  }

  // ---------- branches ----------

  /** Leaving for the address `target`. */
  lemma GoesTo(s: State, word: bv32, env: Env, a: Act, target: bv64, taken: bool)
    requires Acts(s, word, a) && a == if taken then Goto(target) else Next
    ensures Went(s, Executed(s, word, env), if taken then Num(target) else After(s))
  {
    hide BaseAct;
    hide Num;
    hide Quadrant;
    NextPc(s.pc);
    hide Plus;
    assert Executed(s, word, env) == Perform(s, a, word, 4, env);
  }

  lemma EqualActs(x: Regs, pc: bv64, rs1: bv32, rs2: bv32, imm: bv64)
    ensures BranchAct(x, pc, 0, rs1, rs2, imm) == if x(rs1) == x(rs2) then Goto(Plus(pc, imm)) else Next
    ensures BranchAct(x, pc, 1, rs1, rs2, imm) == if x(rs1) == x(rs2) then Next else Goto(Plus(pc, imm))
  {
    hide Less;
    hide Plus;
  }

  lemma LessActs(x: Regs, pc: bv64, rs1: bv32, rs2: bv32, imm: bv64)
    ensures BranchAct(x, pc, 4, rs1, rs2, imm) == if Less(x(rs1), x(rs2)) then Goto(Plus(pc, imm)) else Next
    ensures BranchAct(x, pc, 5, rs1, rs2, imm) == if Less(x(rs1), x(rs2)) then Next else Goto(Plus(pc, imm))
  {
    hide Less;
    hide Plus;
  }

  lemma BelowActs(x: Regs, pc: bv64, rs1: bv32, rs2: bv32, imm: bv64)
    ensures BranchAct(x, pc, 6, rs1, rs2, imm) == if Below(x(rs1), x(rs2)) then Goto(Plus(pc, imm)) else Next
    ensures BranchAct(x, pc, 7, rs1, rs2, imm) == if Below(x(rs1), x(rs2)) then Next else Goto(Plus(pc, imm))
  {
    hide Less;
    hide Plus;
  }

  lemma BranchCodes()
    ensures Code(0x0063, 0x63, 0, 0) && Code(0x1063, 0x63, 1, 0) && Code(0x4063, 0x63, 4, 0)
    ensures Code(0x5063, 0x63, 5, 0) && Code(0x6063, 0x63, 6, 0) && Code(0x7063, 0x63, 7, 0)
  {
  }

  lemma ByBranch(s: State, env: Env, code: bv32, f3: bv32, rs1: bv32, rs2: bv32, imm: bv32, taken: bool)
    requires Code(code, 0x63, f3, 0) && rs1 < 32 && rs2 < 32 && imm & 1 == 0
    requires BranchAct(s.x, s.pc, f3, rs1, rs2, Sx(Ext(imm, 13)))
          == if taken then Goto(Plus(s.pc, Sx(Ext(imm, 13)))) else Next
    ensures Went(s, Executed(s, BType(code, rs1, rs2, imm), env),
                 if taken then (Num(s.pc) + Extend(Field(imm), 13)) % WORD else After(s))
  {
    hide *;
    var a, target := BranchAct(s.x, s.pc, f3, rs1, rs2, Sx(Ext(imm, 13))), Plus(s.pc, Sx(Ext(imm, 13)));
    BranchWord(s, code, f3, rs1, rs2, imm);
    GoesTo(s, BType(code, rs1, rs2, imm), env, a, target, taken);
    PlusNum(s.pc, Sx(Ext(imm, 13)));
    Imm13Num(imm);
  }

  /** beq, bne, blt, bge, bltu and bgeu: each is taken exactly if its relation holds. */
  lemma Branch(s: State, env: Env, rs1: bv32, rs2: bv32, imm: bv32)
    requires rs1 < 32 && rs2 < 32 && imm & 1 == 0
    ensures var a, b := Num(s.x(rs1)), Num(s.x(rs2));
      var i, j := Signed(a, WORD / 2), Signed(b, WORD / 2);
      var target, next := (Num(s.pc) + Extend(Field(imm), 13)) % WORD, After(s);
      && Went(s, Executed(s, BType(0x0063, rs1, rs2, imm), env), if a == b then target else next)
      && Went(s, Executed(s, BType(0x1063, rs1, rs2, imm), env), if a != b then target else next)
      && Went(s, Executed(s, BType(0x4063, rs1, rs2, imm), env), if i < j then target else next)
      && Went(s, Executed(s, BType(0x5063, rs1, rs2, imm), env), if i >= j then target else next)
      && Went(s, Executed(s, BType(0x6063, rs1, rs2, imm), env), if a < b then target else next)
      && Went(s, Executed(s, BType(0x7063, rs1, rs2, imm), env), if a >= b then target else next)
  {
    hide *;
    BranchCodes();
    var v, w, k := s.x(rs1), s.x(rs2), Sx(Ext(imm, 13));
    EqualActs(s.x, s.pc, rs1, rs2, k);
    LessActs(s.x, s.pc, rs1, rs2, k);
    BelowActs(s.x, s.pc, rs1, rs2, k);
    if Num(v) == Num(w) {
      SameNum(v, w);
    }
    LessSigned(v, w);
    BelowNum(v, w);
    ByBranch(s, env, 0x0063, 0, rs1, rs2, imm, v == w);
    ByBranch(s, env, 0x1063, 1, rs1, rs2, imm, v != w);
    ByBranch(s, env, 0x4063, 4, rs1, rs2, imm, Less(v, w));
    ByBranch(s, env, 0x5063, 5, rs1, rs2, imm, !Less(v, w));
    ByBranch(s, env, 0x6063, 6, rs1, rs2, imm, Below(v, w));
    ByBranch(s, env, 0x7063, 7, rs1, rs2, imm, !Below(v, w));
  }

  // ---------- jumps ----------

  lemma LinksTo(s: State, word: bv32, env: Env, rd: bv32, target: bv64)
    requires Acts(s, word, Jump(target, rd))
    ensures Wrote(s, Executed(s, word, env), rd, After(s), Num(target))
  {
    hide BaseAct;
    hide Num;
    hide Quadrant;
    NextPc(s.pc);
    hide Plus;
    assert Executed(s, word, env) == Perform(s, Jump(target, rd), word, 4, env);
  }

  /** jal: the return address into a register, and pc moved by the offset. */
  lemma JumpAndLink(s: State, env: Env, rd: bv32, imm: bv32)
    requires rd < 32 && imm & 1 == 0
    ensures Wrote(s, Executed(s, JType(0x6F, rd, imm), env), rd, After(s), (Num(s.pc) + Extend(Field(imm), 21)) % WORD)
  {
    UpperCodes();
    hide *;
    var i, k := JType(0x6F, rd, imm), Sx(Ext(imm, 21));
    JTypeFields(0x6F, rd, imm);
    JTypeImm(0x6F, rd, imm);
    FullSize(i);
    JumpIs(s, i);
    LinksTo(s, i, env, rd, Plus(s.pc, k));
    PlusNum(s.pc, k);
    Imm21Num(imm);
  }

  lemma UpperCodes()
    ensures Code(0x6F, 0x6F, 0, 0) && Code(0x67, 0x67, 0, 0) && Code(0x37, 0x37, 0, 0) && Code(0x17, 0x17, 0, 0)
  {
  }

  /** jalr: the target is the sum with its lowest bit cleared. */
  lemma JumpAndLinkRegister(s: State, env: Env, rd: bv32, rs1: bv32, imm: bv32)
    requires rd < 32 && rs1 < 32
    ensures var sum := (Num(s.x(rs1)) + Extend(Field(imm), 12)) % WORD;
      Wrote(s, Executed(s, IType(0x67, rd, rs1, imm), env), rd, After(s), sum - sum % 2)
  {
    UpperCodes();
    hide *;
    var i, k := IType(0x67, rd, rs1, imm), Sx(Ext(imm, 12));
    ImmediateWord(s, 0x67, 0x67, 0, rd, rs1, imm);
    JumpRegIs(s.x, rd, rs1, k);
    LinksTo(s, i, env, rd, Cleared(Plus(s.x(rs1), k)));
    ClearedNum(Plus(s.x(rs1), k));
    PlusNum(s.x(rs1), k);
    Imm12Num(imm);
  }

  function Cleared(v: bv64): bv64 { v & !1 }

  lemma JumpRegIs(x: Regs, rd: bv32, rs1: bv32, imm: bv64)
    ensures JumpRegAct(x, rd, rs1, imm) == Jump(Cleared(Plus(x(rs1), imm)), rd)
  {
    hide Plus;
    hide Jump;
  }

  lemma ClearedNum(v: bv64)
    ensures Num(Cleared(v)) == Num(v) - Num(v) % 2
  {
    ClearedParts(v);
    hide Cleared;
    hide Half;
    hide Odd;
    assert NumLow(v, 64) == 2 * NumLow(Half(v), 63) + B2N(Odd(v));
    assert NumLow(Cleared(v), 64) == 2 * NumLow(Half(v), 63);
    hide NumLow;
  }

  lemma ClearedParts(v: bv64)
    ensures Half(Cleared(v)) == Half(v) && !Odd(Cleared(v))
  {
  }

  // ---------- upper immediates ----------

  /** lui and auipc: the immediate, and pc plus the immediate. */
  lemma Upper(s: State, env: Env, rd: bv32, imm: bv32)
    requires rd < 32 && imm & 0xFFF == 0
    ensures Gives(s, UType(0x37, rd, imm), env, rd, Extend(Field(imm), 32))
    ensures Gives(s, UType(0x17, rd, imm), env, rd, (Num(s.pc) + Extend(Field(imm), 32)) % WORD)
  {
    hide *;
    LoadUpper(s, env, rd, imm);
    AddUpper(s, env, rd, imm);
  }

  lemma LoadUpper(s: State, env: Env, rd: bv32, imm: bv32)
    requires rd < 32 && imm & 0xFFF == 0
    ensures Gives(s, UType(0x37, rd, imm), env, rd, Extend(Field(imm), 32))
  {
    UpperCodes();
    hide *;
    UpperBits(imm);
    var i := UType(0x37, rd, imm);
    SxNum(imm);
    UTypeFields(0x37, 0x37, rd, imm);
    FullSize(i);
    UpperIs(s, i);
    SetGives(s, i, env, rd, Sx(imm));
  }

  lemma AddUpper(s: State, env: Env, rd: bv32, imm: bv32)
    requires rd < 32 && imm & 0xFFF == 0
    ensures Gives(s, UType(0x17, rd, imm), env, rd, (Num(s.pc) + Extend(Field(imm), 32)) % WORD)
  {
    UpperCodes();
    hide *;
    UpperBits(imm);
    var i := UType(0x17, rd, imm);
    SxNum(imm);
    UTypeFields(0x17, 0x17, rd, imm);
    FullSize(i);
    PcRelativeIs(s, i);
    SetGives(s, i, env, rd, Plus(s.pc, Sx(imm)));
    PlusNum(s.pc, Sx(imm));
  }

  lemma UpperBits(imm: bv32)
    requires imm & 0xFFF == 0
    ensures imm & 0xFFFF_F000 == imm
  {
  }
}
