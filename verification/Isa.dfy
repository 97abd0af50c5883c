/** What the 32-bit integer instructions do, over the numbers the registers hold: each law
    is about the step of the interpreter on the instruction's word, written as the opcode
    tables have it (chapter 24 of the RISC-V Unprivileged ISA 20191213). */
module Isa {
  import opened Bits
  import opened Words
  import opened Rvc
  import opened RvcDecode
  import opened Core
  import opened Numbers
  import opened Shifts
  import H = Hart

  // ---------- instruction words ----------

  // the formats, `code` holding opcode, funct3 and funct7

  function RType(code: bv32, rd: bv32, rs1: bv32, rs2: bv32): bv32 {
    code | (rd << 7) | (rs1 << 15) | (rs2 << 20)
  }

  function IType(code: bv32, rd: bv32, rs1: bv32, imm: bv32): bv32 {
    code | (rd << 7) | (rs1 << 15) | (imm << 20)
  }

  function SType(code: bv32, rs1: bv32, rs2: bv32, imm: bv32): bv32 {
    code | ((imm & 0x1F) << 7) | (rs1 << 15) | (rs2 << 20) | ((imm & 0xFE0) << 20)
  }

  function BType(code: bv32, rs1: bv32, rs2: bv32, imm: bv32): bv32 {
    code | ((imm & 0x800) >> 4) | ((imm & 0x1E) << 7) | (rs1 << 15) | (rs2 << 20)
    | ((imm & 0x7E0) << 20) | ((imm & 0x1000) << 19)
  }

  function UType(code: bv32, rd: bv32, imm: bv32): bv32 {
    code | (rd << 7) | (imm & 0xFFFF_F000)
  }

  function JType(code: bv32, rd: bv32, imm: bv32): bv32 {
    code | (rd << 7) | (imm & 0xF_F000) | ((imm & 0x800) << 9) | ((imm & 0x7FE) << 20) | ((imm & 0x10_0000) << 11)
  }

  // ---------- outcomes ----------

  function After(s: State): nat {
    (Num(s.pc) + 4) % WORD
  }

  /** Nothing happens but that pc becomes `pc`. */
  ghost predicate Went(s: State, r: Result, pc: int) {
    r.Retired? && r.stored == None && r.state == s.(pc := r.state.pc) && Num(r.state.pc) == pc
  }

  /** Register `rd` gets the number `n`, unless it is register 0, and pc becomes `pc`. */
  ghost predicate Wrote(s: State, r: Result, rd: bv32, n: int, pc: int) {
    && r.Retired? && r.stored == None
    && r.state == s.(x := r.state.x, pc := r.state.pc) && Num(r.state.pc) == pc
    && (forall k :: k != rd ==> r.state.x(k) == s.x(k))
    && (if rd == 0 then r.state.x(0) == s.x(0) else Num(r.state.x(rd)) == n)
  }

  /** The instruction computes `n` for register `rd`. */
  ghost predicate Gives(s: State, word: bv32, env: Env, rd: bv32, n: int) {
    Wrote(s, Executed(s, word, env), rd, n, After(s))
  }

  /** The instruction refuses itself: an illegal-instruction exception. */
  ghost predicate Refuses(s: State, word: bv32, env: Env) {
    var r := Executed(s, word, env); r.Raised? && r.cause == 2 && r.state == s.(tval := word as bv64)
  }

  // ---------- from words to acts ----------

  /** A full-size word with this act. */
  predicate Acts(s: State, word: bv32, a: Act) {
    Quadrant(word) == 3 && BaseAct(s.x, s.pc, s.unit.fs != 0, word) == a
  }

  lemma FullSize(i: bv32)
    requires Opcode(i) in {0x33, 0x3B, 0x13, 0x1B, 0x03, 0x07, 0x67, 0x23, 0x27, 0x37, 0x17, 0x6F, 0x63, 0x2F, 0x73, 0x0F}
    ensures Quadrant(i) == 3
  {
  }

  /** The opcode and function fields in a format's code. */
  predicate Code(code: bv32, op: bv32, f3: bv32, f7: bv32) {
    op < 128 && f3 < 8 && f7 < 128 && code == (f7 << 25) | (f3 << 12) | op
  }

  lemma RTypeFields(code: bv32, op: bv32, f3: bv32, f7: bv32, rd: bv32, rs1: bv32, rs2: bv32)
    requires Code(code, op, f3, f7) && rd < 32 && rs1 < 32 && rs2 < 32
    ensures var i := RType(code, rd, rs1, rs2);
      && Opcode(i) == op && Funct3(i) == f3 && Funct7(i) == f7
      && Rd(i) == rd && Rs1(i) == rs1 && Rs2(i) == rs2
  {
  }

  lemma ITypeFields(code: bv32, op: bv32, f3: bv32, rd: bv32, rs1: bv32, imm: bv32)
    requires Code(code, op, f3, 0) && rd < 32 && rs1 < 32
    ensures var i := IType(code, rd, rs1, imm);
      Opcode(i) == op && Funct3(i) == f3 && Rd(i) == rd && Rs1(i) == rs1
  {
  }

  lemma ITypeImm(code: bv32, op: bv32, f3: bv32, rd: bv32, rs1: bv32, imm: bv32)
    requires Code(code, op, f3, 0) && rd < 32 && rs1 < 32
    ensures ImmI(IType(code, rd, rs1, imm)) == Ext(imm, 12)
  {
    hide Sra;
    Ext12(imm);
    if imm & 0x800 != 0 {
      Sra12Negative(imm);
      ITypeNegative(code, rd, rs1, imm);
    } else {
      Sra12Positive(imm);
      ITypePositive(code, rd, rs1, imm);
    }
    hide Ext;
  }

  lemma ITypeNegative(code: bv32, rd: bv32, rs1: bv32, imm: bv32)
    requires code < 0x8000 && rd < 32 && rs1 < 32 && imm & 0x800 != 0
    ensures Sra(code | (rd << 7) | (rs1 << 15) | (imm << 20), 20) == imm | 0xFFFF_F000
  {
  }

  lemma ITypePositive(code: bv32, rd: bv32, rs1: bv32, imm: bv32)
    requires code < 0x8000 && rd < 32 && rs1 < 32 && imm & 0x800 == 0
    ensures Sra(code | (rd << 7) | (rs1 << 15) | (imm << 20), 20) == imm & 0xFFF
  {
  }

  /** Opcodes OP and OP-32. */
  lemma RegisterWord(s: State, code: bv32, op: bv32, f3: bv32, f7: bv32, rd: bv32, rs1: bv32, rs2: bv32)
    requires Code(code, op, f3, f7) && rd < 32 && rs1 < 32 && rs2 < 32
    ensures var word := RType(code, rd, rs1, rs2);
      && (op == 0x33 ==> Acts(s, word, RegAct(s.x, f3, f7, rd, rs1, rs2)))
      && (op == 0x3B ==> Acts(s, word, Reg32Act(s.x, f3, f7, rd, rs1, rs2)))
  {
    hide Code;
    hide RType;
    hide BaseAct;
    hide RegAct;
    hide Reg32Act;
    hide Quadrant;
    hide Opcode;
    hide Funct3;
    hide Funct7;
    hide Rd;
    hide Rs1;
    hide Rs2;
    RTypeFields(code, op, f3, f7, rd, rs1, rs2);
    Dispatch(s.x, s.pc, s.unit.fs != 0, RType(code, rd, rs1, rs2), op);
    if op in {0x33, 0x3B} {
      FullSize(RType(code, rd, rs1, rs2));
    }
  }

  /** The opcodes with an I-type immediate. */
  lemma ImmediateWord(s: State, code: bv32, op: bv32, f3: bv32, rd: bv32, rs1: bv32, imm: bv32)
    requires Code(code, op, f3, 0) && rd < 32 && rs1 < 32
    ensures var word, v := IType(code, rd, rs1, imm), Sx(Ext(imm, 12));
      && (op == 0x13 ==> Acts(s, word, ImmAct(s.x, f3, rd, rs1, v)))
      && (op == 0x1B ==> Acts(s, word, Imm32Act(s.x, f3, rd, rs1, v)))
      && (op == 0x03 ==> Acts(s, word, LoadAct(s.x, f3, rd, rs1, v)))
      && (op == 0x07 ==> Acts(s, word, FpLoadAct(s.x, s.unit.fs != 0, f3, rd, rs1, v)))
      && (op == 0x67 ==> Acts(s, word, JumpRegAct(s.x, rd, rs1, v)))
  {
    hide Code;
    hide IType;
    hide BaseAct;
    hide ImmAct;
    hide Imm32Act;
    hide LoadAct;
    hide FpLoadAct;
    hide JumpRegAct;
    hide Quadrant;
    hide Opcode;
    hide Funct3;
    hide Rd;
    hide Rs1;
    hide ImmI;
    hide Ext;
    hide Sx;
    ITypeFields(code, op, f3, rd, rs1, imm);
    ITypeImm(code, op, f3, rd, rs1, imm);
    Dispatch(s.x, s.pc, s.unit.fs != 0, IType(code, rd, rs1, imm), op);
    if op in {0x13, 0x1B, 0x03, 0x07, 0x67} {
      FullSize(IType(code, rd, rs1, imm));
    }
  }

  /** Computing a value into a register. */
  lemma SetGives(s: State, word: bv32, env: Env, rd: bv32, v: bv64)
    requires Acts(s, word, Set(rd, v))
    ensures Gives(s, word, env, rd, Num(v))
  {
    hide BaseAct;
    hide Num;
    hide Quadrant;
    NextPc(s.pc);
    hide Plus;
    var r := Executed(s, word, env);
    assert r == Perform(s, Set(rd, v), word, 4, env);
  }

  lemma NextPc(pc: bv64)
    ensures Num(Plus(pc, 4)) == (Num(pc) + 4) % WORD
  {
    hide *;
    PlusNum(pc, 4);
    FourNum();
  }

  lemma FourNum()
    ensures Num(4) == 4
  {
    Masks();
    OnesTwo();
    PowerIs(3, 2, 4);
    assert Pow2(2) == 4;
  }

  /** A register-register instruction, once its value is known. */
  lemma ByRegister(s: State, env: Env, code: bv32, op: bv32, f3: bv32, f7: bv32, rd: bv32, rs1: bv32, rs2: bv32, v: bv64)
    requires Code(code, op, f3, f7) && op in {0x33, 0x3B} && rd < 32 && rs1 < 32 && rs2 < 32
    requires op == 0x33 ==> RegAct(s.x, f3, f7, rd, rs1, rs2) == Set(rd, v)
    requires op == 0x3B ==> Reg32Act(s.x, f3, f7, rd, rs1, rs2) == Set(rd, v)
    ensures Gives(s, RType(code, rd, rs1, rs2), env, rd, Num(v))
  {
    hide *;
    RegisterWord(s, code, op, f3, f7, rd, rs1, rs2);
    SetGives(s, RType(code, rd, rs1, rs2), env, rd, v);
  }

  /** The same for an instruction with an immediate. */
  lemma ByImmediate(s: State, env: Env, code: bv32, op: bv32, f3: bv32, rd: bv32, rs1: bv32, imm: bv32, v: bv64)
    requires Code(code, op, f3, 0) && op in {0x13, 0x1B} && rd < 32 && rs1 < 32
    requires op == 0x13 ==> ImmAct(s.x, f3, rd, rs1, Sx(Ext(imm, 12))) == Set(rd, v)
    requires op == 0x1B ==> Imm32Act(s.x, f3, rd, rs1, Sx(Ext(imm, 12))) == Set(rd, v)
    ensures Gives(s, IType(code, rd, rs1, imm), env, rd, Num(v))
  {
    hide *;
    ImmediateWord(s, code, op, f3, rd, rs1, imm);
    SetGives(s, IType(code, rd, rs1, imm), env, rd, v);
  }
}
