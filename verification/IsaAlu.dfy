/** The computational instructions: arithmetic, comparison, logic, shifts, multiplication and
    division, in their 64-bit, immediate and 32-bit forms (instructions.c:797-1060). */
module IsaAlu {
  import opened Bits
  import B = BitSets
  import opened Words
  import opened Rvc
  import opened RvcDecode
  import opened Core
  import opened Numbers
  import opened Shifts
  import opened Isa
  import D = RvcDecode
  import M = MulUnit

  function Immediate(imm: bv32): nat {
    Extend(Field(imm), 12)
  }

  // ---------- 64-bit arithmetic and comparison ----------

  lemma ArithmeticCodes()
    ensures Code(0x0000_0033, 0x33, 0, 0) && Code(0x4000_0033, 0x33, 0, 0x20)
    ensures Code(0x0000_2033, 0x33, 2, 0) && Code(0x0000_3033, 0x33, 3, 0)
    ensures Code(0x0013, 0x13, 0, 0) && Code(0x2013, 0x13, 2, 0) && Code(0x3013, 0x13, 3, 0)
  {
  }

  lemma ArithmeticActs(x: Regs, rd: bv32, rs1: bv32, rs2: bv32)
    ensures RegAct(x, 0, 0, rd, rs1, rs2) == Set(rd, Plus(x(rs1), x(rs2)))
    ensures RegAct(x, 0, 0x20, rd, rs1, rs2) == Set(rd, Minus(x(rs1), x(rs2)))
    ensures RegAct(x, 2, 0, rd, rs1, rs2) == Set(rd, Flag(Less(x(rs1), x(rs2))))
    ensures RegAct(x, 3, 0, rd, rs1, rs2) == Set(rd, Flag(Below(x(rs1), x(rs2))))
  {
    hide Plus;
    hide Minus;
    hide Less;
    hide Flag;
    hide Set;
    hide And64;
    hide Sll64;
    hide Srl64;
    hide Sra64;
    hide MulDiv;
  }

  lemma FlagNum(b: bool)
    ensures Num(Flag(b)) == if b then 1 else 0
  {
    ZeroNum(0);
    Ones3();
    OnesNum(1, 1);
    assert Pow2(1) == 2;
    hide Num;
    hide Ones;
  }

  /** add, sub, slt and sltu. */
  lemma Arithmetic(s: State, env: Env, rd: bv32, rs1: bv32, rs2: bv32)
    requires rd < 32 && rs1 < 32 && rs2 < 32
    ensures var a, b := Num(s.x(rs1)), Num(s.x(rs2));
      && Gives(s, RType(0x0000_0033, rd, rs1, rs2), env, rd, (a + b) % WORD)
      && Gives(s, RType(0x4000_0033, rd, rs1, rs2), env, rd, (a - b) % WORD)
      && Gives(s, RType(0x0000_2033, rd, rs1, rs2), env, rd,
               if Signed(a, WORD / 2) < Signed(b, WORD / 2) then 1 else 0)
      && Gives(s, RType(0x0000_3033, rd, rs1, rs2), env, rd, if a < b then 1 else 0)
  {
    hide *;
    ArithmeticCodes();
    ArithmeticActs(s.x, rd, rs1, rs2);
    var v, w := s.x(rs1), s.x(rs2);
    ByRegister(s, env, 0x0000_0033, 0x33, 0, 0, rd, rs1, rs2, Plus(v, w));
    PlusNum(v, w);
    ByRegister(s, env, 0x4000_0033, 0x33, 0, 0x20, rd, rs1, rs2, Minus(v, w));
    MinusNum(v, w);
    ByRegister(s, env, 0x0000_2033, 0x33, 2, 0, rd, rs1, rs2, Flag(Less(v, w)));
    LessSigned(v, w);
    FlagNum(Less(v, w));
    ByRegister(s, env, 0x0000_3033, 0x33, 3, 0, rd, rs1, rs2, Flag(Below(v, w)));
    BelowNum(v, w);
    FlagNum(Below(v, w));
  }

  lemma ArithmeticImmActs(x: Regs, rd: bv32, rs1: bv32, imm: bv64)
    ensures ImmAct(x, 0, rd, rs1, imm) == Set(rd, Plus(x(rs1), imm))
    ensures ImmAct(x, 2, rd, rs1, imm) == Set(rd, Flag(Less(x(rs1), imm)))
    ensures ImmAct(x, 3, rd, rs1, imm) == Set(rd, Flag(Below(x(rs1), imm)))
  {
    hide Plus;
    hide Less;
    hide Flag;
    hide Set;
    hide And64;
    hide Sll64;
    hide Srl64;
    hide Sra64;
  }

  /** addi, slti and sltiu. */
  lemma ArithmeticImmediate(s: State, env: Env, rd: bv32, rs1: bv32, imm: bv32)
    requires rd < 32 && rs1 < 32
    ensures var a, b := Num(s.x(rs1)), Immediate(imm);
      && Gives(s, IType(0x0013, rd, rs1, imm), env, rd, (a + b) % WORD)
      && Gives(s, IType(0x2013, rd, rs1, imm), env, rd, if Signed(a, WORD / 2) < Signed(b, WORD / 2) then 1 else 0)
      && Gives(s, IType(0x3013, rd, rs1, imm), env, rd, if a < b then 1 else 0)
  {
    ImmediateIs(imm);
    hide *;
    ArithmeticCodes();
    var v, w := s.x(rs1), Sx(Ext(imm, 12));
    ArithmeticImmActs(s.x, rd, rs1, w);
    ByImmediate(s, env, 0x0013, 0x13, 0, rd, rs1, imm, Plus(v, w));
    PlusNum(v, w);
    ByImmediate(s, env, 0x2013, 0x13, 2, rd, rs1, imm, Flag(Less(v, w)));
    LessSigned(v, w);
    FlagNum(Less(v, w));
    ByImmediate(s, env, 0x3013, 0x13, 3, rd, rs1, imm, Flag(Below(v, w)));
    BelowNum(v, w);
    FlagNum(Below(v, w));
  }

  lemma ImmediateIs(imm: bv32)
    ensures Num(Sx(Ext(imm, 12))) == Immediate(imm)
  {
    Imm12Num(imm);
    hide Num;
    hide Sx;
    hide Ext;
    hide Extend;
    hide Field;
  }

  // ---------- logic ----------

  lemma LogicCodes()
    ensures Code(0x4033, 0x33, 4, 0) && Code(0x6033, 0x33, 6, 0) && Code(0x7033, 0x33, 7, 0)
    ensures Code(0x4013, 0x13, 4, 0) && Code(0x6013, 0x13, 6, 0) && Code(0x7013, 0x13, 7, 0)
  {
  }

  lemma LogicActs(x: Regs, rd: bv32, rs1: bv32, rs2: bv32)
    ensures RegAct(x, 4, 0, rd, rs1, rs2) == Set(rd, Xor(x(rs1), x(rs2)))
    ensures RegAct(x, 6, 0, rd, rs1, rs2) == Set(rd, Or(x(rs1), x(rs2)))
    ensures RegAct(x, 7, 0, rd, rs1, rs2) == Set(rd, And(x(rs1), x(rs2)))
  {
    AndIs(x(rs1), x(rs2));
    hide Set;
    hide And;
    hide And64;
    hide Plus;
    hide Less;
    hide Flag;
    hide Sll64;
    hide Srl64;
    hide Sra64;
    hide MulDiv;
  }

  lemma LogicImmActs(x: Regs, rd: bv32, rs1: bv32, imm: bv64)
    ensures ImmAct(x, 4, rd, rs1, imm) == Set(rd, Xor(x(rs1), imm))
    ensures ImmAct(x, 6, rd, rs1, imm) == Set(rd, Or(x(rs1), imm))
    ensures ImmAct(x, 7, rd, rs1, imm) == Set(rd, And(x(rs1), imm))
  {
    AndIs(x(rs1), imm);
    hide Set;
    hide And;
    hide And64;
    hide Plus;
    hide Less;
    hide Flag;
    hide Sll64;
    hide Srl64;
    hide Sra64;
  }

  /** Bit by bit, `n` is the combination of `a` and `b`. */
  ghost predicate BitAnd(n: nat, a: nat, b: nat) {
    forall i: nat :: i < 64 ==> (B.BitOf(n, i) <==> B.BitOf(a, i) && B.BitOf(b, i))
  }

  ghost predicate BitOr(n: nat, a: nat, b: nat) {
    forall i: nat :: i < 64 ==> (B.BitOf(n, i) <==> B.BitOf(a, i) || B.BitOf(b, i))
  }

  ghost predicate BitXor(n: nat, a: nat, b: nat) {
    forall i: nat :: i < 64 ==> (B.BitOf(n, i) <==> B.BitOf(a, i) != B.BitOf(b, i))
  }

  lemma LogicNums(v: bv64, w: bv64)
    ensures BitXor(Num(Xor(v, w)), Num(v), Num(w)) && BitOr(Num(Or(v, w)), Num(v), Num(w))
    ensures BitAnd(Num(And(v, w)), Num(v), Num(w))
  {
    hide Num;
    hide B.BitOf;
    hide Xor;
    hide Or;
    hide And;
    forall i: nat | i < 64
      ensures B.BitOf(Num(Xor(v, w)), i) <==> B.BitOf(Num(v), i) != B.BitOf(Num(w), i)
      ensures B.BitOf(Num(Or(v, w)), i) <==> B.BitOf(Num(v), i) || B.BitOf(Num(w), i)
      ensures B.BitOf(Num(And(v, w)), i) <==> B.BitOf(Num(v), i) && B.BitOf(Num(w), i)
    {
      LogicBits(v, w, i);
    }
  }

  /** xor, or and and. */
  lemma Logic(s: State, env: Env, rd: bv32, rs1: bv32, rs2: bv32) returns (xor: nat, or: nat, and: nat)
    requires rd < 32 && rs1 < 32 && rs2 < 32
    ensures var a, b := Num(s.x(rs1)), Num(s.x(rs2)); BitXor(xor, a, b) && BitOr(or, a, b) && BitAnd(and, a, b)
    ensures Gives(s, RType(0x4033, rd, rs1, rs2), env, rd, xor)
    ensures Gives(s, RType(0x6033, rd, rs1, rs2), env, rd, or)
    ensures Gives(s, RType(0x7033, rd, rs1, rs2), env, rd, and)
  {
    hide *;
    LogicCodes();
    LogicActs(s.x, rd, rs1, rs2);
    var v, w := s.x(rs1), s.x(rs2);
    xor, or, and := Num(Xor(v, w)), Num(Or(v, w)), Num(And(v, w));
    LogicNums(v, w);
    ByRegister(s, env, 0x4033, 0x33, 4, 0, rd, rs1, rs2, Xor(v, w));
    ByRegister(s, env, 0x6033, 0x33, 6, 0, rd, rs1, rs2, Or(v, w));
    ByRegister(s, env, 0x7033, 0x33, 7, 0, rd, rs1, rs2, And(v, w));
  }

  /** xori, ori and andi. */
  lemma LogicImmediate(s: State, env: Env, rd: bv32, rs1: bv32, imm: bv32) returns (xor: nat, or: nat, and: nat)
    requires rd < 32 && rs1 < 32
    ensures var a, b := Num(s.x(rs1)), Immediate(imm); BitXor(xor, a, b) && BitOr(or, a, b) && BitAnd(and, a, b)
    ensures Gives(s, IType(0x4013, rd, rs1, imm), env, rd, xor)
    ensures Gives(s, IType(0x6013, rd, rs1, imm), env, rd, or)
    ensures Gives(s, IType(0x7013, rd, rs1, imm), env, rd, and)
  {
    ImmediateIs(imm);
    hide *;
    LogicCodes();
    var v, w := s.x(rs1), Sx(Ext(imm, 12));
    LogicImmActs(s.x, rd, rs1, w);
    xor, or, and := Num(Xor(v, w)), Num(Or(v, w)), Num(And(v, w));
    LogicNums(v, w);
    ByImmediate(s, env, 0x4013, 0x13, 4, rd, rs1, imm, Xor(v, w));
    ByImmediate(s, env, 0x6013, 0x13, 6, rd, rs1, imm, Or(v, w));
    ByImmediate(s, env, 0x7013, 0x13, 7, rd, rs1, imm, And(v, w));
  }

  // ---------- shifts ----------

  lemma ShiftCodes()
    ensures Code(0x0000_1033, 0x33, 1, 0) && Code(0x0000_5033, 0x33, 5, 0) && Code(0x4000_5033, 0x33, 5, 0x20)
    ensures Code(0x1013, 0x13, 1, 0) && Code(0x5013, 0x13, 5, 0)
    ensures Code(0x0000_103B, 0x3B, 1, 0) && Code(0x0000_503B, 0x3B, 5, 0) && Code(0x4000_503B, 0x3B, 5, 0x20)
    ensures Code(0x101B, 0x1B, 1, 0) && Code(0x501B, 0x1B, 5, 0)
  {
  }

  lemma Amount(w: bv64)
    ensures w & 63 < 64 && w & 31 < 64
    ensures Num(w & 63) == Num(w) % 64 && Num(w & 31) == Num(w) % 32
  {
    hide *;
    AmountFits(w);
    Masks();
    MaskNum(w, 63, 6);
    MaskNum(w, 31, 5);
    SmallPowers();
  }

  lemma AmountFits(w: bv64)
    ensures w & 63 < 64 && w & 31 < 64 && w & 63 == And(w, 63) && w & 31 == And(w, 31)
  {
  }

  lemma SmallPowers()
    ensures Pow2(5) == 32 && Pow2(6) == 64
  {
    assert Pow2(3) == 8;
  }

  lemma ShiftActs(x: Regs, rd: bv32, rs1: bv32, rs2: bv32)
    requires x(rs2) & 63 < 64
    ensures RegAct(x, 1, 0, rd, rs1, rs2) == Set(rd, Sll64(x(rs1), x(rs2) & 63))
    ensures RegAct(x, 5, 0, rd, rs1, rs2) == Set(rd, Srl64(x(rs1), x(rs2) & 63))
    ensures RegAct(x, 5, 0x20, rd, rs1, rs2) == Set(rd, Sra64(x(rs1), x(rs2) & 63))
  {
    hide Set;
    hide And64;
    hide Plus;
    hide Minus;
    hide Less;
    hide Flag;
    hide Sll64;
    hide Srl64;
    hide Sra64;
    hide MulDiv;
  }

  /** sll, srl and sra, by the low six bits of the second operand. */
  lemma Shift(s: State, env: Env, rd: bv32, rs1: bv32, rs2: bv32)
    requires rd < 32 && rs1 < 32 && rs2 < 32
    ensures var a, p := Num(s.x(rs1)), Pow2(Num(s.x(rs2)) % 64);
      && Gives(s, RType(0x0000_1033, rd, rs1, rs2), env, rd, a * p % WORD)
      && Gives(s, RType(0x0000_5033, rd, rs1, rs2), env, rd, a / p)
      && Gives(s, RType(0x4000_5033, rd, rs1, rs2), env, rd, Signed(a, WORD / 2) / p % WORD)
  {
    hide *;
    ShiftCodes();
    var v, n := s.x(rs1), s.x(rs2) & 63;
    Amount(s.x(rs2));
    ShiftActs(s.x, rd, rs1, rs2);
    ByRegister(s, env, 0x0000_1033, 0x33, 1, 0, rd, rs1, rs2, Sll64(v, n));
    SllNum(v, n);
    ByRegister(s, env, 0x0000_5033, 0x33, 5, 0, rd, rs1, rs2, Srl64(v, n));
    SrlNum(v, n);
    ByRegister(s, env, 0x4000_5033, 0x33, 5, 0x20, rd, rs1, rs2, Sra64(v, n));
    SraNum(v, n);
  }

  /** slli, srli and srai: bit 10 of the immediate makes the right shift arithmetic. */
  lemma ShiftImmediate(s: State, env: Env, rd: bv32, rs1: bv32, amount: bv32)
    requires rd < 32 && rs1 < 32 && amount < 64
    ensures var a, p := Num(s.x(rs1)), Pow2(Field(amount));
      && Gives(s, IType(0x1013, rd, rs1, amount), env, rd, a * p % WORD)
      && Gives(s, IType(0x5013, rd, rs1, amount), env, rd, a / p)
      && Gives(s, IType(0x5013, rd, rs1, amount | 0x400), env, rd, Signed(a, WORD / 2) / p % WORD)
  {
    hide *;
    ShiftCodes();
    AmountWide(amount);
    FieldIs(amount);
    var v, n := s.x(rs1), amount as bv64;
    D.ShiftIs(s.x, rd, rs1, amount);
    ByImmediate(s, env, 0x1013, 0x13, 1, rd, rs1, amount, Sll64(v, n));
    SllNum(v, n);
    ByImmediate(s, env, 0x5013, 0x13, 5, rd, rs1, amount, Srl64(v, n));
    SrlNum(v, n);
    ByImmediate(s, env, 0x5013, 0x13, 5, rd, rs1, amount | 0x400, Sra64(v, n));
    SraNum(v, n);
  }

  lemma AmountWide(amount: bv32)
    requires amount < 64
    ensures amount as bv64 < 64
  {
  }

  // ---------- 32-bit forms ----------

  lemma WordCodes()
    ensures Code(0x0000_003B, 0x3B, 0, 0) && Code(0x4000_003B, 0x3B, 0, 0x20) && Code(0x001B, 0x1B, 0, 0)
  {
  }

  lemma WordActs(x: Regs, rd: bv32, rs1: bv32, rs2: bv32, imm: bv64)
    ensures Reg32Act(x, 0, 0, rd, rs1, rs2) == Set(rd, Word(Plus(x(rs1), x(rs2))))
    ensures Reg32Act(x, 0, 0x20, rd, rs1, rs2) == Set(rd, Word(Minus(x(rs1), x(rs2))))
    ensures Imm32Act(x, 0, rd, rs1, imm) == Set(rd, Word(Plus(x(rs1), imm)))
  {
    hide Set;
    hide Plus;
    hide Minus;
    hide Word;
    hide SllW;
    hide SrlW;
    hide SraW;
    hide MulDiv32;
  }

  /** addw, subw and addiw: the low 32 bits of the result, sign-extended. */
  lemma WordArithmetic(s: State, env: Env, rd: bv32, rs1: bv32, rs2: bv32, imm: bv32)
    requires rd < 32 && rs1 < 32 && rs2 < 32
    ensures var a, b := Num(s.x(rs1)), Num(s.x(rs2));
      && Gives(s, RType(0x0000_003B, rd, rs1, rs2), env, rd, Extend(a + b, 32))
      && Gives(s, RType(0x4000_003B, rd, rs1, rs2), env, rd, Extend(a - b, 32))
      && Gives(s, IType(0x001B, rd, rs1, imm), env, rd, Extend(a + Immediate(imm), 32))
  {
    ImmediateIs(imm);
    hide *;
    WordCodes();
    var v, w, i := s.x(rs1), s.x(rs2), Sx(Ext(imm, 12));
    WordActs(s.x, rd, rs1, rs2, i);
    ByRegister(s, env, 0x0000_003B, 0x3B, 0, 0, rd, rs1, rs2, Word(Plus(v, w)));
    WordNum(Plus(v, w));
    PlusNum(v, w);
    ExtendWrapped(Num(v) + Num(w), 32);
    ByRegister(s, env, 0x4000_003B, 0x3B, 0, 0x20, rd, rs1, rs2, Word(Minus(v, w)));
    WordNum(Minus(v, w));
    MinusNum(v, w);
    ExtendWrapped(Num(v) - Num(w), 32);
    ByImmediate(s, env, 0x001B, 0x1B, 0, rd, rs1, imm, Word(Plus(v, i)));
    WordNum(Plus(v, i));
    PlusNum(v, i);
    ExtendWrapped(Num(v) + Num(i), 32);
  }

  lemma WordShiftActs(x: Regs, rd: bv32, rs1: bv32, rs2: bv32)
    ensures Reg32Act(x, 1, 0, rd, rs1, rs2) == Set(rd, SllW(x(rs1), x(rs2)))
    ensures Reg32Act(x, 5, 0, rd, rs1, rs2) == Set(rd, SrlW(x(rs1), x(rs2)))
    ensures Reg32Act(x, 5, 0x20, rd, rs1, rs2) == Set(rd, SraW(x(rs1), x(rs2)))
  {
    hide Set;
    hide Plus;
    hide Minus;
    hide Word;
    hide SllW;
    hide SrlW;
    hide SraW;
    hide MulDiv32;
  }

  /** The 32-bit shifts of `v` by the low five bits of `n`. */
  lemma WordShifts(v: bv64, n: bv64)
    ensures var a, p := Num(v), Pow2(Num(n) % 32);
      && Num(SllW(v, n)) == Extend(a * p, 32)
      && Num(SrlW(v, n)) == Extend(a % HALF_WORD / p, 32)
      && Num(SraW(v, n)) == Signed(a % HALF_WORD, HALF_WORD / 2) / p % WORD
  {
    hide *;
    Amount(n);
    HalfWordPower();
    var k := n & 31;
    SllWIs(v, n);
    WordNum(Sll64(v, k));
    SllNum(v, k);
    ExtendWrapped(Num(v) * Pow2(Num(k)), 32);
    SrlWIs(v, n);
    Masks();
    MaskNum(v, ONES32, 32);
    WordNum(Srl64(And(v, ONES32), k));
    SrlNum(And(v, ONES32), k);
    SraWIs(v, n);
    SraNum(Word(v), k);
    WordNum(v);
    ExtendSigned(Num(v), 32);
  }

  lemma HalfWordPower()
    ensures Pow2(32) == HALF_WORD && Pow2(31) == HALF_WORD / 2
  {
    assert Pow2(4) == 16;
    Pow2Add(4, 4);
    Pow2Add(8, 8);
    Pow2Add(16, 16);
    assert Pow2(32) == 2 * Pow2(31);
  }

  /** sllw, srlw and sraw. */
  lemma WordShift(s: State, env: Env, rd: bv32, rs1: bv32, rs2: bv32)
    requires rd < 32 && rs1 < 32 && rs2 < 32
    ensures var a, p := Num(s.x(rs1)), Pow2(Num(s.x(rs2)) % 32);
      && Gives(s, RType(0x0000_103B, rd, rs1, rs2), env, rd, Extend(a * p, 32))
      && Gives(s, RType(0x0000_503B, rd, rs1, rs2), env, rd, Extend(a % HALF_WORD / p, 32))
      && Gives(s, RType(0x4000_503B, rd, rs1, rs2), env, rd, Signed(a % HALF_WORD, HALF_WORD / 2) / p % WORD)
  {
    hide *;
    ShiftCodes();
    var v, w := s.x(rs1), s.x(rs2);
    WordShiftActs(s.x, rd, rs1, rs2);
    WordShifts(v, w);
    ByRegister(s, env, 0x0000_103B, 0x3B, 1, 0, rd, rs1, rs2, SllW(v, w));
    ByRegister(s, env, 0x0000_503B, 0x3B, 5, 0, rd, rs1, rs2, SrlW(v, w));
    ByRegister(s, env, 0x4000_503B, 0x3B, 5, 0x20, rd, rs1, rs2, SraW(v, w));
  }

  lemma WordLogicalActs(x: Regs, rd: bv32, rs1: bv32, v: bv64)
    requires v & !31 == 0 && v & !(31 | 0x400) == 0 && v & 0x400 == 0
    ensures Imm32Act(x, 1, rd, rs1, v) == Set(rd, SllW(x(rs1), v)) && Imm32Act(x, 5, rd, rs1, v) == Set(rd, SrlW(x(rs1), v))
  {
    hide Set;
    hide SllW;
    hide SrlW;
  }

  lemma WordArithmeticActs(x: Regs, rd: bv32, rs1: bv32, v: bv64)
    requires v & !(31 | 0x400) == 0 && v & 0x400 != 0
    ensures Imm32Act(x, 5, rd, rs1, v) == Set(rd, SraW(x(rs1), v))
  {
    hide Set;
    hide SraW;
  }

  lemma LogicalAmount(amount: bv32)
    requires amount < 32
    ensures var v := Sx(Ext(amount, 12));
      v & !31 == 0 && v & !(31 | 0x400) == 0 && v & 0x400 == 0 && v & 31 == amount as bv64
  {
  }

  lemma ArithmeticAmount(amount: bv32)
    requires amount < 32
    ensures var v := Sx(Ext(amount | 0x400, 12));
      v & !(31 | 0x400) == 0 && v & 0x400 != 0 && v & 31 == amount as bv64
  {
  }

  /** slliw, srliw and sraiw. */
  lemma WordShiftImmediate(s: State, env: Env, rd: bv32, rs1: bv32, amount: bv32)
    requires rd < 32 && rs1 < 32 && amount < 32
    ensures var a, p := Num(s.x(rs1)), Pow2(Field(amount));
      && Gives(s, IType(0x101B, rd, rs1, amount), env, rd, Extend(a * p, 32))
      && Gives(s, IType(0x501B, rd, rs1, amount), env, rd, Extend(a % HALF_WORD / p, 32))
      && Gives(s, IType(0x501B, rd, rs1, amount | 0x400), env, rd, Signed(a % HALF_WORD, HALF_WORD / 2) / p % WORD)
  {
    hide *;
    ShiftCodes();
    FieldIs(amount);
    var v, k, j := s.x(rs1), Sx(Ext(amount, 12)), Sx(Ext(amount | 0x400, 12));
    LogicalAmount(amount);
    ArithmeticAmount(amount);
    Amount(k);
    Amount(j);
    WordLogicalActs(s.x, rd, rs1, k);
    WordArithmeticActs(s.x, rd, rs1, j);
    WordShifts(v, k);
    WordShifts(v, j);
    ByImmediate(s, env, 0x101B, 0x1B, 1, rd, rs1, amount, SllW(v, k));
    ByImmediate(s, env, 0x501B, 0x1B, 5, rd, rs1, amount, SrlW(v, k));
    ByImmediate(s, env, 0x501B, 0x1B, 5, rd, rs1, amount | 0x400, SraW(v, j));
  }

  // ---------- multiplication ----------

  lemma MulCodes()
    ensures Code(0x0200_0033, 0x33, 0, 1) && Code(0x0200_1033, 0x33, 1, 1) && Code(0x0200_2033, 0x33, 2, 1)
    ensures Code(0x0200_3033, 0x33, 3, 1) && Code(0x0200_4033, 0x33, 4, 1) && Code(0x0200_5033, 0x33, 5, 1)
    ensures Code(0x0200_6033, 0x33, 6, 1) && Code(0x0200_7033, 0x33, 7, 1) && Code(0x0200_003B, 0x3B, 0, 1)
    ensures Code(0x0200_403B, 0x3B, 4, 1) && Code(0x0200_503B, 0x3B, 5, 1) && Code(0x0200_603B, 0x3B, 6, 1)
    ensures Code(0x0200_703B, 0x3B, 7, 1)
  {
  }

  /** The instructions of opcode OP with funct7 = 1. */
  lemma ByMulDiv(s: State, env: Env, code: bv32, f3: bv32, rd: bv32, rs1: bv32, rs2: bv32)
    requires Code(code, 0x33, f3, 1) && rd < 32 && rs1 < 32 && rs2 < 32
    ensures Gives(s, RType(code, rd, rs1, rs2), env, rd, MulDivNum(f3, Num(s.x(rs1)), Num(s.x(rs2))) % WORD)
  {
    hide *;
    var v := MulDiv(f3, s.x(rs1), s.x(rs2));
    MulDivAct(s.x, f3, rd, rs1, rs2);
    ByRegister(s, env, code, 0x33, f3, 1, rd, rs1, rs2, v);
    MulDivIs(f3, s.x(rs1), s.x(rs2));
  }

  lemma MulDivAct(x: Regs, f3: bv32, rd: bv32, rs1: bv32, rs2: bv32)
    ensures RegAct(x, f3, 1, rd, rs1, rs2) == Set(rd, MulDiv(f3, x(rs1), x(rs2)))
    ensures f3 in {0, 4, 5, 6, 7} ==> Reg32Act(x, f3, 1, rd, rs1, rs2) == Set(rd, MulDiv32(f3, x(rs1), x(rs2)))
  {
    hide Set;
    hide MulDiv;
    hide MulDiv32;
  }

  lemma MulDivIs(f3: bv32, v: bv64, w: bv64)
    ensures Num(MulDiv(f3, v, w)) == MulDivNum(f3, Num(v), Num(w)) % WORD
  {
    hide Num;
    hide Reg;
    hide MulDivNum;
    NumReg(MulDivNum(f3, Num(v), Num(w)) % WORD);
  }

  /** mul, mulh, mulhsu and mulhu: the low half of the product, and the high half of the signed, the
      mixed and the unsigned one. */
  lemma Multiplication(s: State, env: Env, rd: bv32, rs1: bv32, rs2: bv32)
    requires rd < 32 && rs1 < 32 && rs2 < 32
    ensures var a, b := Num(s.x(rs1)), Num(s.x(rs2));
      var i, j := Signed(a, WORD / 2), Signed(b, WORD / 2);
      && Gives(s, RType(0x0200_0033, rd, rs1, rs2), env, rd, a * b % WORD)
      && Gives(s, RType(0x0200_1033, rd, rs1, rs2), env, rd, i * j / WORD % WORD)
      && Gives(s, RType(0x0200_2033, rd, rs1, rs2), env, rd, i * b / WORD % WORD)
      && Gives(s, RType(0x0200_3033, rd, rs1, rs2), env, rd, a * b / WORD % WORD)
  {
    hide *;
    MulCodes();
    ByMulDiv(s, env, 0x0200_0033, 0, rd, rs1, rs2);
    ByMulDiv(s, env, 0x0200_1033, 1, rd, rs1, rs2);
    ByMulDiv(s, env, 0x0200_2033, 2, rd, rs1, rs2);
    ByMulDiv(s, env, 0x0200_3033, 3, rd, rs1, rs2);
    ProductsAre(Num(s.x(rs1)), Num(s.x(rs2)));
  }

  lemma ProductsAre(a: nat, b: nat)
    requires a < WORD && b < WORD
    ensures var i, j := Signed(a, WORD / 2), Signed(b, WORD / 2);
      && MulDivNum(0, a, b) % WORD == a * b % WORD && MulDivNum(1, a, b) == i * j / WORD
      && MulDivNum(2, a, b) == i * b / WORD && MulDivNum(3, a, b) == a * b / WORD
  {
    hide Signed;
    M.SignedProduct(a, b);
  }

  // ---------- division ----------

  /** Truncating division: `a == b * q + r`, the remainder smaller than the divisor and of the
      dividend's sign. */
  predicate Divides(a: int, b: int, q: int, r: int) {
    && a == b * q + r && (if b > 0 then -b < r < b else b < r < -b)
    && (a >= 0 ==> r >= 0) && (a <= 0 ==> r <= 0)
  }

  /** Every division by a number other than 0 has exactly one result. */
  lemma DivisionExists(a: int, b: int)
    requires b != 0
    ensures Divides(a, b, Truncated(a, b), a - b * Truncated(a, b))
  {
    TruncatedIs(a, b);
    hide Truncated;
  }

  lemma DivisionUnique(a: int, b: int, q: int, r: int, q': int, r': int)
    requires Divides(a, b, q, r) && Divides(a, b, q', r')
    ensures q' == q && r' == r
  {
    Spread(b, q', q);
    NoMultiple(b, q' - q, b * (q' - q));
  }

  lemma NoMultiple(b: int, d: int, x: int)
    requires b != 0 && x == b * d && (if b > 0 then -b < x < b else b < x < -b)
    ensures d == 0
  {
    Negated(b, d);
    if d >= 1 {
      FarApart(b, d);
    } else if d <= -1 {
      FarApart(b, -d);
    }
  }

  lemma Negated(b: int, d: int)
    ensures b * -d == -(b * d)
  {
  }

  lemma Spread(b: int, q': int, q: int)
    ensures b * (q' - q) == b * q' - b * q
  {
  }

  lemma FarApart(b: int, d: int)
    requires b != 0 && d >= 1
    ensures b > 0 ==> b * d >= b
    ensures b < 0 ==> b * d <= b
  {
  }

  /** What the two results of a division are, for signed and unsigned operands. */
  lemma SignedResults(a: int, b: int, half: nat, q: int, r: int)
    requires 0 - half <= a < half && 0 - half <= b < half && half >= 1 && Divides(a, b, q, r)
    ensures DivS(a, b, half) % (2 * half) == q % (2 * half) && RemS(a, b, half) == r
  {
    DivisionExists(a, b);
    DivisionUnique(a, b, q, r, Truncated(a, b), a - b * Truncated(a, b));
    if a == 0 - half && b == -1 {
      DivisionUnique(a, b, q, r, half, 0);
      DivUnique(half, 2 * half, 0, half);
      DivUnique(0 - half, 2 * half, -1, half);
    }
    hide Truncated;
  }

  lemma UnsignedResults(a: nat, b: nat, size: nat, q: nat, r: nat)
    requires b >= 1 && a == b * q + r && r < b
    ensures DivU(a, b, size) == q && RemU(a, b) == r
  {
    MulSwap(b, q);
    DivUnique(a, b, q, r);
  }

  /** div and rem. The quotient of the least number and -1 wraps. */
  lemma Division(s: State, env: Env, rd: bv32, rs1: bv32, rs2: bv32, q: int, r: int)
    requires rd < 32 && rs1 < 32 && rs2 < 32
    requires Divides(Signed(Num(s.x(rs1)), WORD / 2), Signed(Num(s.x(rs2)), WORD / 2), q, r)
    ensures Gives(s, RType(0x0200_4033, rd, rs1, rs2), env, rd, q % WORD)
    ensures Gives(s, RType(0x0200_6033, rd, rs1, rs2), env, rd, r % WORD)
  {
    hide *;
    MulCodes();
    ByMulDiv(s, env, 0x0200_4033, 4, rd, rs1, rs2);
    ByMulDiv(s, env, 0x0200_6033, 6, rd, rs1, rs2);
    DivisionIs64(Num(s.x(rs1)), Num(s.x(rs2)), q, r);
  }

  lemma DivisionIs64(a: nat, b: nat, q: int, r: int)
    requires a < WORD && b < WORD && Divides(Signed(a, WORD / 2), Signed(b, WORD / 2), q, r)
    ensures MulDivNum(4, a, b) % WORD == q % WORD && MulDivNum(6, a, b) == r
  {
    QuotientsAre(a, b);
    hide MulDivNum;
    hide Divides;
    SignedResults(Signed(a, WORD / 2), Signed(b, WORD / 2), WORD / 2, q, r);
    hide DivS;
    hide RemS;
  }

  lemma QuotientsAre(a: nat, b: nat)
    ensures var i, j := Signed(a, WORD / 2), Signed(b, WORD / 2);
      && MulDivNum(4, a, b) == DivS(i, j, WORD / 2) && MulDivNum(6, a, b) == RemS(i, j, WORD / 2)
      && MulDivNum(5, a, b) == DivU(a, b, WORD) && MulDivNum(7, a, b) == RemU(a, b)
  {
    hide Signed;
    hide DivS;
    hide RemS;
    hide DivU;
    hide RemU;
  }

  /** divu and remu. */
  lemma UnsignedDivision(s: State, env: Env, rd: bv32, rs1: bv32, rs2: bv32, q: nat, r: nat)
    requires rd < 32 && rs1 < 32 && rs2 < 32
    requires Num(s.x(rs1)) == Num(s.x(rs2)) * q + r && r < Num(s.x(rs2))
    ensures Gives(s, RType(0x0200_5033, rd, rs1, rs2), env, rd, q)
    ensures Gives(s, RType(0x0200_7033, rd, rs1, rs2), env, rd, r)
  {
    hide *;
    MulCodes();
    ByMulDiv(s, env, 0x0200_5033, 5, rd, rs1, rs2);
    ByMulDiv(s, env, 0x0200_7033, 7, rd, rs1, rs2);
    var a, b := Num(s.x(rs1)), Num(s.x(rs2));
    UnsignedResults(a, b, WORD, q, r);
    QuotientsAre(a, b);
    QuotientSmall(a, b, q, r);
  }

  lemma QuotientSmall(a: nat, b: nat, q: nat, r: nat)
    requires a < WORD && a == b * q + r && r < b
    ensures q % WORD == q && r % WORD == r
  {
    MulSwap(b, q);
    if q > 0 {
      MulOrder(1, b, q);
    }
  }

  /** Division by 0: all ones, and the dividend. */
  lemma DivisionByZero(s: State, env: Env, rd: bv32, rs1: bv32, rs2: bv32)
    requires rd < 32 && rs1 < 32 && rs2 < 32 && Num(s.x(rs2)) == 0
    ensures Gives(s, RType(0x0200_4033, rd, rs1, rs2), env, rd, WORD - 1)
    ensures Gives(s, RType(0x0200_5033, rd, rs1, rs2), env, rd, WORD - 1)
    ensures Gives(s, RType(0x0200_6033, rd, rs1, rs2), env, rd, Num(s.x(rs1)))
    ensures Gives(s, RType(0x0200_7033, rd, rs1, rs2), env, rd, Num(s.x(rs1)))
  {
    hide *;
    MulCodes();
    ByMulDiv(s, env, 0x0200_4033, 4, rd, rs1, rs2);
    ByMulDiv(s, env, 0x0200_5033, 5, rd, rs1, rs2);
    ByMulDiv(s, env, 0x0200_6033, 6, rd, rs1, rs2);
    ByMulDiv(s, env, 0x0200_7033, 7, rd, rs1, rs2);
    ZeroDivisor(Num(s.x(rs1)));
  }

  lemma ZeroDivisor(a: nat)
    requires a < WORD
    ensures MulDivNum(4, a, 0) % WORD == WORD - 1 && MulDivNum(5, a, 0) % WORD == WORD - 1
    ensures MulDivNum(6, a, 0) % WORD == a && MulDivNum(7, a, 0) % WORD == a
  {
    QuotientsAre(a, 0);
    hide MulDivNum;
  }

  // ---------- 32-bit multiplication and division ----------

  lemma ByMulDiv32(s: State, env: Env, code: bv32, f3: bv32, rd: bv32, rs1: bv32, rs2: bv32)
    requires Code(code, 0x3B, f3, 1) && f3 in {0, 4, 5, 6, 7} && rd < 32 && rs1 < 32 && rs2 < 32
    ensures Gives(s, RType(code, rd, rs1, rs2), env, rd,
                  Extend(MulDiv32Num(f3, Num(s.x(rs1)) % HALF_WORD, Num(s.x(rs2)) % HALF_WORD), 32))
  {
    hide *;
    var v := MulDiv32(f3, s.x(rs1), s.x(rs2));
    MulDivAct(s.x, f3, rd, rs1, rs2);
    ByRegister(s, env, code, 0x3B, f3, 1, rd, rs1, rs2, v);
    MulDiv32Is(f3, s.x(rs1), s.x(rs2));
  }

  lemma MulDiv32Is(f3: bv32, v: bv64, w: bv64)
    ensures Num(MulDiv32(f3, v, w)) == Extend(MulDiv32Num(f3, Num(v) % HALF_WORD, Num(w) % HALF_WORD), 32)
  {
    hide Num;
    hide Reg;
    hide MulDiv32Num;
    HalfWordPower();
    var r := MulDiv32Num(f3, Num(v) % HALF_WORD, Num(w) % HALF_WORD) % HALF_WORD;
    NumReg(Signed(r, HALF_WORD / 2) % WORD);
  }

  /** The low halves of the operands, read as signed. */
  function Low(n: nat): int {
    Signed(n % HALF_WORD, HALF_WORD / 2)
  }

  /** divw and remw. */
  lemma WordDivision(s: State, env: Env, rd: bv32, rs1: bv32, rs2: bv32, q: int, r: int)
    requires rd < 32 && rs1 < 32 && rs2 < 32
    requires Divides(Low(Num(s.x(rs1))), Low(Num(s.x(rs2))), q, r)
    ensures Gives(s, RType(0x0200_403B, rd, rs1, rs2), env, rd, Extend(q, 32))
    ensures Gives(s, RType(0x0200_603B, rd, rs1, rs2), env, rd, Extend(r, 32))
  {
    hide *;
    MulCodes();
    ByMulDiv32(s, env, 0x0200_403B, 4, rd, rs1, rs2);
    ByMulDiv32(s, env, 0x0200_603B, 6, rd, rs1, rs2);
    DivisionIs32(Num(s.x(rs1)), Num(s.x(rs2)), q, r);
  }

  lemma DivisionIs32(a: nat, b: nat, q: int, r: int)
    requires Divides(Low(a), Low(b), q, r)
    ensures Extend(MulDiv32Num(4, a % HALF_WORD, b % HALF_WORD), 32) == Extend(q, 32)
    ensures MulDiv32Num(6, a % HALF_WORD, b % HALF_WORD) == r
  {
    HalfWordPower();
    hide Divides;
    hide Pow2;
    SignedResults(Low(a), Low(b), HALF_WORD / 2, q, r);
    hide DivS;
    hide RemS;
  }

  /** mulw: the low 32 bits of the product. */
  lemma WordMultiplication(s: State, env: Env, rd: bv32, rs1: bv32, rs2: bv32)
    requires rd < 32 && rs1 < 32 && rs2 < 32
    ensures Gives(s, RType(0x0200_003B, rd, rs1, rs2), env, rd, Extend(Num(s.x(rs1)) * Num(s.x(rs2)), 32))
  {
    hide *;
    MulCodes();
    ByMulDiv32(s, env, 0x0200_003B, 0, rd, rs1, rs2);
    ProductIs32(Num(s.x(rs1)), Num(s.x(rs2)));
  }

  lemma ProductIs32(a: nat, b: nat)
    ensures Extend(MulDiv32Num(0, a % HALF_WORD, b % HALF_WORD), 32) == Extend(a * b, 32)
  {
    HalfWordPower();
    hide Pow2;
    assert MulDiv32Num(0, a % HALF_WORD, b % HALF_WORD) == Low(a) * Low(b);
    LowProduct(a, b, Low(a), Low(b));
  }

  lemma LowProduct(a: nat, b: nat, i: int, j: int)
    requires i == Low(a) && j == Low(b)
    ensures i * j % HALF_WORD == a * b % HALF_WORD
  {
    var k := LowMultiple(a);
    var l := LowMultiple(b);
    hide Low;
    Products(i, j, k, l, a, b);
    ModShift(i * j, k * j + l * a);
  }

  lemma LowMultiple(a: nat) returns (k: int)
    ensures a == Low(a) + k * HALF_WORD
  {
    DivMod(a, HALF_WORD);
    k := a / HALF_WORD + if a % HALF_WORD < HALF_WORD / 2 then 0 else 1;
  }

  lemma Products(i: int, j: int, k: int, l: int, a: int, b: int)
    requires a == i + k * HALF_WORD && b == j + l * HALF_WORD
    ensures a * b == i * j + (k * j + l * a) * HALF_WORD
  {
    assert a * b == a * j + a * l * HALF_WORD;
    assert a * j == i * j + k * j * HALF_WORD;
  }

  lemma ModShift(x: int, c: int)
    ensures (x + c * HALF_WORD) % HALF_WORD == x % HALF_WORD
  {
    DivMod(x, HALF_WORD);
    Distribute(x / HALF_WORD, c, HALF_WORD);
    DivUnique(x + c * HALF_WORD, HALF_WORD, x / HALF_WORD + c, x % HALF_WORD);
  }

  /** divuw and remuw. */
  lemma UnsignedWordDivision(s: State, env: Env, rd: bv32, rs1: bv32, rs2: bv32, q: nat, r: nat)
    requires rd < 32 && rs1 < 32 && rs2 < 32
    requires var a, b := Num(s.x(rs1)) % HALF_WORD, Num(s.x(rs2)) % HALF_WORD; a == b * q + r && r < b
    ensures Gives(s, RType(0x0200_503B, rd, rs1, rs2), env, rd, Extend(q, 32))
    ensures Gives(s, RType(0x0200_703B, rd, rs1, rs2), env, rd, Extend(r, 32))
  {
    hide *;
    MulCodes();
    ByMulDiv32(s, env, 0x0200_503B, 5, rd, rs1, rs2);
    ByMulDiv32(s, env, 0x0200_703B, 7, rd, rs1, rs2);
    UnsignedIs32(Num(s.x(rs1)), Num(s.x(rs2)), q, r);
  }

  lemma UnsignedIs32(a: nat, b: nat, q: nat, r: nat)
    requires a % HALF_WORD == b % HALF_WORD * q + r && r < b % HALF_WORD
    ensures MulDiv32Num(5, a % HALF_WORD, b % HALF_WORD) == q && MulDiv32Num(7, a % HALF_WORD, b % HALF_WORD) == r
  {
    UnsignedResults(a % HALF_WORD, b % HALF_WORD, HALF_WORD, q, r);
    Quotients32Are(a % HALF_WORD, b % HALF_WORD);
    hide MulDiv32Num;
  }

  lemma Quotients32Are(a: nat, b: nat)
    ensures MulDiv32Num(5, a, b) == DivU(a, b, HALF_WORD) && MulDiv32Num(7, a, b) == RemU(a, b)
  {
    hide Signed;
    hide DivU;
    hide RemU;
  }

  /** 32-bit division by 0: all ones, and the low half of the dividend, sign-extended even by remuw. */
  lemma WordDivisionByZero(s: State, env: Env, rd: bv32, rs1: bv32, rs2: bv32)
    requires rd < 32 && rs1 < 32 && rs2 < 32 && Num(s.x(rs2)) % HALF_WORD == 0
    ensures var a := Num(s.x(rs1));
      && Gives(s, RType(0x0200_403B, rd, rs1, rs2), env, rd, WORD - 1)
      && Gives(s, RType(0x0200_503B, rd, rs1, rs2), env, rd, WORD - 1)
      && Gives(s, RType(0x0200_603B, rd, rs1, rs2), env, rd, Extend(a, 32))
      && Gives(s, RType(0x0200_703B, rd, rs1, rs2), env, rd, Extend(a, 32))
  {
    hide *;
    MulCodes();
    ByMulDiv32(s, env, 0x0200_403B, 4, rd, rs1, rs2);
    ByMulDiv32(s, env, 0x0200_503B, 5, rd, rs1, rs2);
    ByMulDiv32(s, env, 0x0200_603B, 6, rd, rs1, rs2);
    ByMulDiv32(s, env, 0x0200_703B, 7, rd, rs1, rs2);
    ZeroDivisor32(Num(s.x(rs1)));
  }

  lemma ZeroDivisor32(a: nat)
    ensures var n := a % HALF_WORD;
      && Extend(MulDiv32Num(4, n, 0), 32) == WORD - 1 && Extend(MulDiv32Num(5, n, 0), 32) == WORD - 1
      && Extend(MulDiv32Num(6, n, 0), 32) == Extend(a, 32) && Extend(MulDiv32Num(7, n, 0), 32) == Extend(a, 32)
  {
    HalfWordPower();
    hide Pow2;
    var n := a % HALF_WORD;
    DivMod(a, HALF_WORD);
    DivUnique(n, HALF_WORD, 0, n);
    if n >= HALF_WORD / 2 {
      DivUnique(n - HALF_WORD, HALF_WORD, -1, n);
    }
    DivUnique(-1, HALF_WORD, -1, HALF_WORD - 1);
    Quotients32Are(n, 0);
  }
}
