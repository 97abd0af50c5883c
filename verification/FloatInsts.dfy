/** The floating-point instructions that round, from the word in memory to the registers and the
    accrued flags (instructions.c:1164-1716). */
module FloatInsts {
  import opened Bits
  import B = BitSets
  import opened Words
  import opened Rvc
  import opened RvcDecode
  import opened Core
  import opened Numbers
  import opened Shifts
  import opened Isa
  import opened IsaMemory
  import opened IsaFloat
  import F = FloatUnit
  import I = Ieee
  import R = SoftFpRound
  import A = SoftFpAdd
  import M = SoftFpMul
  import V = SoftFpDiv
  import X = SoftFpFma
  import T = SoftFpCvt
  import N = SoftFpInt

  /** Rounding mode `m` is the one an instruction with mode field `r` uses. */
  predicate Uses(r: bv32, frm: nat, m: I.Mode) {
    match m
    case RNE => r == 0 || (r == 7 && frm == 0)
    case RTZ => r == 1 || (r == 7 && frm == 1)
    case RDN => r == 2 || (r == 7 && frm == 2)
    case RUP => r == 3 || (r == 7 && frm == 3)
    case RMM => r == 4 || (r == 7 && frm == 4)
  }

  /** The word and the flags each instruction computes from the low bits of its registers. */
  ghost predicate Computes(m: Mnemonic, dbl: bool, mode: I.Mode, s: State, rs1: bv32, rs2: bv32, rs3: bv32,
                           flags: set<I.Flag>, w: nat)
    requires Rounds(m)
  {
    F.Formats();
    var f := if dbl then I.SF64 else I.SF32;
    var size := if dbl then 64 else 32;
    var x, y, z, n := Num(s.fp(rs1)) % Pow2(size), Num(s.fp(rs2)) % Pow2(size), Num(s.fp(rs3)) % Pow2(size), Num(s.x(rs1));
    match m
    case FAdd => A.SumIs(f, mode, x, y, {}, flags, w)
    case FSub => A.SumIs(f, mode, x, A.FlipSign(f, y), {}, flags, w)
    case FMul => M.ProductIs(f, mode, x, y, {}, flags, w)
    case FDiv => V.QuotientIs(f, mode, x, y, {}, flags, w)
    case FSqrt => V.RootIs(f, mode, x, {}, flags, w)
    case FMadd => X.FusedIs(f, mode, x, y, z, {}, flags, w)
    case FMsub => X.FusedIs(f, mode, x, y, A.FlipSign(f, z), {}, flags, w)
    case FNmsub => X.FusedIs(f, mode, A.FlipSign(f, x), y, z, {}, flags, w)
    case FNmadd => X.FusedIs(f, mode, A.FlipSign(f, x), y, A.FlipSign(f, z), {}, flags, w)
    case FCvtF =>
      if dbl then T.WidenIs(I.SF32, I.SF64, Num(s.fp(rs1)) % Pow2(32), {}, flags, w)
      else T.NarrowIs(I.SF64, I.SF32, mode, Num(s.fp(rs1)), {}, flags, w)
    case FCvtW => N.ToIntIs(f, 32, false, mode, x, {}, flags, w)
    case FCvtWU => N.ToIntIs(f, 32, true, mode, x, {}, flags, w)
    case FCvtL => N.ToIntIs(f, 64, false, mode, x, {}, flags, w)
    case FCvtLU => N.ToIntIs(f, 64, true, mode, x, {}, flags, w)
    case FFromW => N.FromIntIs(f, mode, Signed(n % Pow2(32), Pow2(31)), {}, flags, w)
    case FFromWU => N.FromIntIs(f, mode, n % Pow2(32), {}, flags, w)
    case FFromL => N.FromIntIs(f, mode, Signed(n, Pow2(63)), {}, flags, w)
    case FFromLU => N.FromIntIs(f, mode, n, {}, flags, w)
  }

  predicate ToRegister(m: Mnemonic) {
    m == FCvtW || m == FCvtWU || m == FCvtL || m == FCvtLU
  }

  /** The bits of fflags: NV, DZ, OF, UF and NX from bit 4 down. */
  predicate Accrue(before: nat, flags: set<I.Flag>, after: nat) {
    && (B.BitOf(after, 4) <==> B.BitOf(before, 4) || I.NV in flags)
    && (B.BitOf(after, 3) <==> B.BitOf(before, 3) || I.DZ in flags)
    && (B.BitOf(after, 2) <==> B.BitOf(before, 2) || I.OF in flags)
    && (B.BitOf(after, 1) <==> B.BitOf(before, 1) || I.UF in flags)
    && (B.BitOf(after, 0) <==> B.BitOf(before, 0) || I.NX in flags)
  }

  /** Where result word `w` goes: boxed or whole into a floating-point register, or sign-extended or
      whole into an integer register. */
  ghost predicate Lands(m: Mnemonic, dbl: bool, s: State, t: State, rd: bv32, flags: set<I.Flag>, w: nat) {
    && t == s.(x := t.x, fp := t.fp, unit := t.unit, pc := t.pc) && Num(t.pc) == After(s)
    && t.unit == s.unit.(fflags := t.unit.fflags, fs := if ToRegister(m) || m == FCvtF then s.unit.fs else 3)
    && Accrue(s.unit.fflags, flags, t.unit.fflags) && (s.unit.fflags < 32 ==> t.unit.fflags < 32)
    && if ToRegister(m) then
         && t.fp == s.fp && (forall k :: k != rd ==> t.x(k) == s.x(k))
         && (if rd == 0 then t.x(0) == s.x(0) else Num(t.x(rd)) == if m == FCvtW || m == FCvtWU then Extend(w, 32) else w)
       else
         && t.x == s.x && (forall k :: k != rd ==> t.fp(k) == s.fp(k))
         && Num(t.fp(rd)) == if dbl then w else BoxedNum(w)
  }

  // ---------- what is computed ----------

  lemma UsesIs(r: bv32, frm: nat, mode: I.Mode)
    requires Uses(r, frm, mode)
    ensures 0 <= RoundingOf(r, frm) <= 4 && F.ModeOf(RoundingOf(r, frm)) == mode && IsaFloat.Mode(r)
  {
  }

  lemma LowHalf(reg: bv64)
    ensures F.WordOf(I.SF32, reg) == NumLow(reg, 32) == Num(reg) % Pow2(32)
    ensures F.WordOf(I.SF64, reg) == NumLow(reg, 64) == Num(reg) == Num(reg) % Pow2(64)
  {
    hide Pow2;
    hide NumLow;
    LowNum(reg, 32);
    LowNum(reg, 64);
  }

  lemma IntValues(n: nat)
    ensures N.IntValue(32, false, n % Pow2(32)) == Signed(n % Pow2(32), Pow2(31)) && N.IntValue(32, true, n) == n
    ensures N.IntValue(64, false, n) == Signed(n, Pow2(63)) && N.IntValue(64, true, n) == n
  {
    HalvePow(32);
    HalvePow(64);
    hide Pow2;
  }

  /** The values an instruction's operation takes: those of its registers. */
  predicate Reads(s: State, m: Mnemonic, rs1: bv32, rs2: bv32, rs3: bv32, abc: (bv64, bv64, bv64)) {
    && abc.0 == (if m == FFromW || m == FFromWU || m == FFromL || m == FFromLU then s.x(rs1) else s.fp(rs1))
    && (Binary(m) ==> abc.1 == s.fp(rs2)) && (Fused(m) ==> abc.2 == s.fp(rs3))
  }

  lemma DeliveredArithmetic(m: Mnemonic, dbl: bool, r: bv32, mode: I.Mode, s: State, rs1: bv32, rs2: bv32, rs3: bv32,
        abc: (bv64, bv64, bv64), flags: set<I.Flag>, w: nat)
    requires m in {FAdd, FSub, FMul, FDiv, FSqrt}
    requires Uses(r, s.unit.frm, mode)
    requires var op := Named(m, dbl, RoundingOf(r, s.unit.frm)).op;
      F.Rounding(op) && Reads(s, m, rs1, rs2, rs3, abc) && F.Delivers3(op, abc.0, abc.1, abc.2, flags, w)
    ensures Computes(m, dbl, mode, s, rs1, rs2, rs3, flags, w)
  {
    hide Pow2;
    hide Num;
    hide NumLow;
    hide Signed;
    hide N.IntValue;
    hide A.SumIs;
    hide A.FlipSign;
    hide M.ProductIs;
    hide V.QuotientIs;
    hide V.RootIs;
    hide X.FusedIs;
    hide T.WidenIs;
    hide T.NarrowIs;
    hide N.ToIntIs;
    hide N.FromIntIs;
    hide Uses;
    hide RoundingOf;
    hide F.ModeOf;
    hide F.WordOf;
    UsesIs(r, s.unit.frm, mode);
    LowHalf(s.fp(rs1));
    LowHalf(s.fp(rs2));
  }

  lemma DeliveredFused(m: Mnemonic, dbl: bool, r: bv32, mode: I.Mode, s: State, rs1: bv32, rs2: bv32, rs3: bv32,
        abc: (bv64, bv64, bv64), flags: set<I.Flag>, w: nat)
    requires Fused(m)
    requires Uses(r, s.unit.frm, mode)
    requires var op := Named(m, dbl, RoundingOf(r, s.unit.frm)).op;
      F.Rounding(op) && Reads(s, m, rs1, rs2, rs3, abc) && F.Delivers3(op, abc.0, abc.1, abc.2, flags, w)
    ensures Computes(m, dbl, mode, s, rs1, rs2, rs3, flags, w)
  {
    hide Pow2;
    hide Num;
    hide NumLow;
    hide Signed;
    hide N.IntValue;
    hide A.SumIs;
    hide A.FlipSign;
    hide M.ProductIs;
    hide V.QuotientIs;
    hide V.RootIs;
    hide X.FusedIs;
    hide T.WidenIs;
    hide T.NarrowIs;
    hide N.ToIntIs;
    hide N.FromIntIs;
    hide Uses;
    hide RoundingOf;
    hide F.ModeOf;
    hide F.WordOf;
    UsesIs(r, s.unit.frm, mode);
    LowHalf(s.fp(rs1));
    LowHalf(s.fp(rs2));
    LowHalf(s.fp(rs3));
  }

  lemma DeliveredToInt(m: Mnemonic, dbl: bool, r: bv32, mode: I.Mode, s: State, rs1: bv32, rs2: bv32, rs3: bv32,
        abc: (bv64, bv64, bv64), flags: set<I.Flag>, w: nat)
    requires ToRegister(m)
    requires Uses(r, s.unit.frm, mode)
    requires var op := Named(m, dbl, RoundingOf(r, s.unit.frm)).op;
      F.Rounding(op) && Reads(s, m, rs1, rs2, rs3, abc) && F.Delivers3(op, abc.0, abc.1, abc.2, flags, w)
    ensures Computes(m, dbl, mode, s, rs1, rs2, rs3, flags, w)
  {
    hide Pow2;
    hide Num;
    hide NumLow;
    hide Signed;
    hide N.IntValue;
    hide A.SumIs;
    hide A.FlipSign;
    hide M.ProductIs;
    hide V.QuotientIs;
    hide V.RootIs;
    hide X.FusedIs;
    hide T.WidenIs;
    hide T.NarrowIs;
    hide N.ToIntIs;
    hide N.FromIntIs;
    hide Uses;
    hide RoundingOf;
    hide F.ModeOf;
    hide F.WordOf;
    UsesIs(r, s.unit.frm, mode);
    LowHalf(s.fp(rs1));
  }

  lemma DeliveredFormat(m: Mnemonic, dbl: bool, r: bv32, mode: I.Mode, s: State, rs1: bv32, rs2: bv32, rs3: bv32,
        abc: (bv64, bv64, bv64), flags: set<I.Flag>, w: nat)
    requires m == FCvtF
    requires Uses(r, s.unit.frm, mode)
    requires var op := Named(m, dbl, RoundingOf(r, s.unit.frm)).op;
      F.Rounding(op) && Reads(s, m, rs1, rs2, rs3, abc) && F.Delivers3(op, abc.0, abc.1, abc.2, flags, w)
    ensures Computes(m, dbl, mode, s, rs1, rs2, rs3, flags, w)
  {
    hide Pow2;
    hide Num;
    hide NumLow;
    hide Signed;
    hide N.IntValue;
    hide A.SumIs;
    hide A.FlipSign;
    hide M.ProductIs;
    hide V.QuotientIs;
    hide V.RootIs;
    hide X.FusedIs;
    hide T.WidenIs;
    hide T.NarrowIs;
    hide N.ToIntIs;
    hide N.FromIntIs;
    hide Uses;
    hide RoundingOf;
    hide F.ModeOf;
    hide F.WordOf;
    UsesIs(r, s.unit.frm, mode);
    LowHalf(s.fp(rs1));
  }

  lemma DeliveredFromInt(m: Mnemonic, dbl: bool, r: bv32, mode: I.Mode, s: State, rs1: bv32, rs2: bv32, rs3: bv32,
        abc: (bv64, bv64, bv64), flags: set<I.Flag>, w: nat)
    requires m in {FFromW, FFromWU, FFromL, FFromLU}
    requires Uses(r, s.unit.frm, mode)
    requires var op := Named(m, dbl, RoundingOf(r, s.unit.frm)).op;
      F.Rounding(op) && Reads(s, m, rs1, rs2, rs3, abc) && F.Delivers3(op, abc.0, abc.1, abc.2, flags, w)
    ensures Computes(m, dbl, mode, s, rs1, rs2, rs3, flags, w)
  {
    hide Pow2;
    hide Num;
    hide NumLow;
    hide Signed;
    hide N.IntValue;
    hide A.SumIs;
    hide A.FlipSign;
    hide M.ProductIs;
    hide V.QuotientIs;
    hide V.RootIs;
    hide X.FusedIs;
    hide T.WidenIs;
    hide T.NarrowIs;
    hide N.ToIntIs;
    hide N.FromIntIs;
    hide Uses;
    hide RoundingOf;
    hide F.ModeOf;
    hide F.WordOf;
    UsesIs(r, s.unit.frm, mode);
    LowHalf(s.x(rs1));
    IntValues(Num(s.x(rs1)));
    IntValues(Num(s.x(rs1)) % Pow2(32));
  }

  lemma Delivered(m: Mnemonic, dbl: bool, r: bv32, mode: I.Mode, s: State, rs1: bv32, rs2: bv32, rs3: bv32,
        abc: (bv64, bv64, bv64), flags: set<I.Flag>, w: nat)
    requires Rounds(m)
    requires Uses(r, s.unit.frm, mode)
    requires var op := Named(m, dbl, RoundingOf(r, s.unit.frm)).op;
      F.Rounding(op) && Reads(s, m, rs1, rs2, rs3, abc) && F.Delivers3(op, abc.0, abc.1, abc.2, flags, w)
    ensures Computes(m, dbl, mode, s, rs1, rs2, rs3, flags, w)
  {
    hide Uses;
    hide Named;
    hide F.Delivers3;
    hide F.Rounding;
    hide Computes;
    hide Reads;
    if m in {FAdd, FSub, FMul, FDiv, FSqrt} {
      DeliveredArithmetic(m, dbl, r, mode, s, rs1, rs2, rs3, abc, flags, w);
    } else if Fused(m) {
      DeliveredFused(m, dbl, r, mode, s, rs1, rs2, rs3, abc, flags, w);
    } else if m == FCvtF {
      DeliveredFormat(m, dbl, r, mode, s, rs1, rs2, rs3, abc, flags, w);
    } else if ToRegister(m) {
      DeliveredToInt(m, dbl, r, mode, s, rs1, rs2, rs3, abc, flags, w);
    } else {
      DeliveredFromInt(m, dbl, r, mode, s, rs1, rs2, rs3, abc, flags, w);
    }
  }

  // ---------- where it goes ----------

  lemma {:induction false} BitOrBits(a: nat, b: nat, i: nat)
    ensures B.BitOf(BitOr(a, b), i) <==> B.BitOf(a, i) || B.BitOf(b, i)
    decreases i
  {
    DivMod(a, 2);
    DivMod(b, 2);
    BitHalf(a / 2, a % 2, i);
    BitHalf(b / 2, b % 2, i);
    BitHalf(BitOr(a / 2, b / 2), B2N(a % 2 == 1 || b % 2 == 1), i);
    hide B.BitOf;
    if i > 0 {
      BitOrBits(a / 2, b / 2, i - 1);
    }
  }

  lemma Appended(h: nat, o: nat, n: nat)
    requires o <= 1 && n == 2 * h + o
    ensures B.BitOf(n, 0) <==> o == 1
    ensures forall i: nat :: B.BitOf(h, i) <==> B.BitOf(n, i + 1)
  {
    BitHalf(h, o, 0);
    forall i: nat
      ensures B.BitOf(h, i) <==> B.BitOf(n, i + 1)
    {
      BitHalf(h, o, i + 1);
    }
  }

  /** Five bits as a number. */
  lemma FiveFlags(a: nat, b: nat, c: nat, d: nat, e: nat)
    requires a <= 1 && b <= 1 && c <= 1 && d <= 1 && e <= 1
    ensures var n := a * 16 + b * 8 + c * 4 + d * 2 + e;
      && (B.BitOf(n, 4) <==> a == 1) && (B.BitOf(n, 3) <==> b == 1) && (B.BitOf(n, 2) <==> c == 1)
      && (B.BitOf(n, 1) <==> d == 1) && (B.BitOf(n, 0) <==> e == 1)
  {
    hide B.BitOf;
    Appended(0, a, a);
    Appended(a, b, 2 * a + b);
    Appended(2 * a + b, c, 4 * a + 2 * b + c);
    Appended(4 * a + 2 * b + c, d, 8 * a + 4 * b + 2 * c + d);
    Appended(8 * a + 4 * b + 2 * c + d, e, a * 16 + b * 8 + c * 4 + d * 2 + e);
  }

  lemma Accrues(before: nat, flags: set<I.Flag>)
    ensures Accrue(before, flags, BitOr(before, F.FlagBits(flags)))
  {
    hide B.BitOf;
    hide BitOr;
    FiveFlags(B2N(I.NV in flags), B2N(I.DZ in flags), B2N(I.OF in flags), B2N(I.UF in flags), B2N(I.NX in flags));
    var b := F.FlagBits(flags);
    BitOrBits(before, b, 4);
    BitOrBits(before, b, 3);
    BitOrBits(before, b, 2);
    BitOrBits(before, b, 1);
    BitOrBits(before, b, 0);
  }

  lemma RegisterNum(dbl: bool, w: nat)
    requires R.IsWord(F.FormatOf(dbl), w)
    ensures Num(if dbl then Reg(w) else Box(Reg(w))) == if dbl then w else BoxedNum(w)
  {
    WordSize();
    Pow2Mono(32, 64);
    hide Pow2;
    hide Num;
    hide Reg;
    hide Box;
    hide BoxedNum;
    NumReg(w);
    BoxNum(Reg(w));
  }

  lemma IntegerNum(w: nat)
    requires w < WORD
    ensures Num(Reg(w)) == w && Num(Word(Reg(w))) == Extend(w, 32)
  {
    hide *;
    NumReg(w);
    WordNum(Reg(w));
  }

  lemma IntegerWord(f: I.Format, n: nat, unsigned: bool, mode: I.Mode, a: nat, flags: set<I.Flag>, w: nat)
    requires f.Valid() && n in {32, 64} && N.ToIntIs(f, n, unsigned, mode, a, {}, flags, w)
    ensures w < WORD
  {
    WordSize();
    Pow2Mono(n, 64);
    hide Pow2;
    hide I.Format.Valid;
    hide N.RoundsToInt;
    hide I.Cmp;
  }

  lemma OpIs(m: Mnemonic, dbl: bool, rm: int)
    requires Rounds(m)
    ensures ToRegister(m) ==> Named(m, dbl, rm).ToX? && Named(m, dbl, rm).op.fn.ToInt?
    ensures !ToRegister(m) ==> Named(m, dbl, rm).ToFp? && !Named(m, dbl, rm).op.fn.ToInt?
    ensures !ToRegister(m) ==> Named(m, dbl, rm).dirty == (m != FCvtF) && Named(m, dbl, rm).op.dbl == dbl
  {
  }

  lemma IntOpValue(m: Mnemonic, dbl: bool, rm: int, w: nat)
    requires ToRegister(m)
    ensures F.ValueOf(Named(m, dbl, rm).op, w) == if m == FCvtW || m == FCvtWU then Word(Reg(w)) else Reg(w)
  {
    hide Word;
    hide Reg;
  }

  lemma LandingInt(m: Mnemonic, dbl: bool, rd: bv32, s: State, i: bv32, op: FloatOp, abc: (bv64, bv64, bv64),
        flags: set<I.Flag>, w: nat, t: State, o: Outcome)
    requires ToRegister(m) && Rd(i) == rd && FloatOf(s.unit.frm, i) == ToX(op) && op.fn.ToInt? && abc == F.Operands(s, op, i)
    requires F.ValueOf(op, w) == if m == FCvtW || m == FCvtWU then Word(Reg(w)) else Reg(w)
    requires F.Rounding(op) && F.Delivers3(op, abc.0, abc.1, abc.2, flags, w)
    requires var out := FpOut(F.ValueOf(op, w), F.FlagBits(flags));
      Matches(s, FloatPerform(s, i, i, Plus(s.pc, 4), F.EnvOf(op, abc, out)), t, o)
    ensures o == Completed(None) && Lands(m, dbl, s, t, rd, flags, w)
  {
    hide *;
    var out := FpOut(F.ValueOf(op, w), F.FlagBits(flags));
    F.ComputedIs(s, op, i, out);
    F.Landed(s, i, i, F.EnvOf(op, abc, out), out, t, o);
    NextAfter(s);
    Accrues(s.unit.fflags, flags);
    ToIntWord(op, abc.0, abc.1, abc.2, flags, w);
    IntegerNum(w);
    LandsInt(m, dbl, s, t, rd, flags, w, out.value);
  }

  lemma NextAfter(s: State)
    ensures Num(Plus(s.pc, 4)) == After(s)
  {
    hide Num;
    hide Plus;
    NextPc(s.pc);
  }

  lemma LandsInt(m: Mnemonic, dbl: bool, s: State, t: State, rd: bv32, flags: set<I.Flag>, w: nat, v: bv64)
    requires ToRegister(m) && Num(v) == if m == FCvtW || m == FCvtWU then Extend(w, 32) else w
    requires t == s.(x := PutX(s.x, rd, v), unit := Accrued(s.unit, F.FlagBits(flags)), pc := t.pc) && Num(t.pc) == After(s)
    requires Accrue(s.unit.fflags, flags, BitOr(s.unit.fflags, F.FlagBits(flags)))
    ensures Lands(m, dbl, s, t, rd, flags, w)
  {
    FlagsFit(s.unit.fflags, F.FlagBits(flags));
    hide Accrue;
    hide Num;
    hide Extend;
    hide BoxedNum;
    hide BitOr;
    hide F.FlagBits;
    hide After;
  }

  lemma LandingFloat(m: Mnemonic, dbl: bool, rd: bv32, s: State, i: bv32, op: FloatOp, abc: (bv64, bv64, bv64),
        flags: set<I.Flag>, w: nat, t: State, o: Outcome)
    requires Rounds(m) && !ToRegister(m) && Rd(i) == rd && op.dbl == dbl && !op.fn.ToInt?
    requires FloatOf(s.unit.frm, i) == ToFp(op, m != FCvtF) && abc == F.Operands(s, op, i)
    requires F.Rounding(op) && F.Delivers3(op, abc.0, abc.1, abc.2, flags, w)
    requires var out := FpOut(F.ValueOf(op, w), F.FlagBits(flags));
      Matches(s, FloatPerform(s, i, i, Plus(s.pc, 4), F.EnvOf(op, abc, out)), t, o)
    ensures o == Completed(None) && Lands(m, dbl, s, t, rd, flags, w)
  {
    hide *;
    var out := FpOut(F.ValueOf(op, w), F.FlagBits(flags));
    F.ComputedIs(s, op, i, out);
    F.Landed(s, i, i, F.EnvOf(op, abc, out), out, t, o);
    NextAfter(s);
    Accrues(s.unit.fflags, flags);
    F.ResultWord(op, abc.0, abc.1, abc.2, flags, w);
    F.RoundedResult(op, w);
    RegisterNum(dbl, w);
    LandsFloat(m, dbl, s, t, rd, flags, w);
  }

  lemma LandsFloat(m: Mnemonic, dbl: bool, s: State, t: State, rd: bv32, flags: set<I.Flag>, w: nat)
    requires Rounds(m) && !ToRegister(m) && Num(t.fp(rd)) == (if dbl then w else BoxedNum(w)) && Num(t.pc) == After(s)
    requires t == s.(fp := t.fp, unit := t.unit, pc := t.pc) && (forall r :: r != rd ==> t.fp(r) == s.fp(r))
    requires t.unit == Accrued(s.unit, F.FlagBits(flags)).(fs := if m != FCvtF then 3 else s.unit.fs)
    requires Accrue(s.unit.fflags, flags, BitOr(s.unit.fflags, F.FlagBits(flags)))
    ensures Lands(m, dbl, s, t, rd, flags, w)
  {
    FlagsFit(s.unit.fflags, F.FlagBits(flags));
    hide Accrue;
    hide Num;
    hide BoxedNum;
    hide BitOr;
    hide F.FlagBits;
    hide After;
  }

  /** The state a result word leaves. */
  lemma Landing(m: Mnemonic, dbl: bool, rm: int, rd: bv32, s: State, i: bv32, op: FloatOp, abc: (bv64, bv64, bv64),
        flags: set<I.Flag>, w: nat, t: State, o: Outcome)
    requires Rounds(m)
    requires Rd(i) == rd && FloatOf(s.unit.frm, i) == Named(m, dbl, rm) && op == Named(m, dbl, rm).op && abc == F.Operands(s, op, i)
    requires F.Rounding(op) && F.Delivers3(op, abc.0, abc.1, abc.2, flags, w)
    requires var out := FpOut(F.ValueOf(op, w), F.FlagBits(flags));
      Matches(s, FloatPerform(s, i, i, Plus(s.pc, 4), F.EnvOf(op, abc, out)), t, o)
    ensures o == Completed(None) && Lands(m, dbl, s, t, rd, flags, w)
  {
    hide *;
    OpIs(m, dbl, rm);
    if ToRegister(m) {
      IntOpValue(m, dbl, rm, w);
      LandingInt(m, dbl, rd, s, i, op, abc, flags, w, t, o);
    } else {
      LandingFloat(m, dbl, rd, s, i, op, abc, flags, w, t, o);
    }
  }

  lemma ToIntWord(op: FloatOp, a: bv64, b: bv64, c: bv64, flags: set<I.Flag>, w: nat)
    requires op.fn.ToInt? && F.Rounding(op) && F.Delivers3(op, a, b, c, flags, w)
    ensures w < WORD
  {
    F.Formats();
    hide N.ToIntIs;
    hide F.WordOf;
    hide Pow2;
    IntegerWord(F.FormatOf(op.dbl), F.IntSize(op.fn.kind), F.IntUnsigned(op.fn.kind), F.ModeOf(op.rm), F.WordOf(F.FormatOf(op.dbl), a), flags, w);
  }

  // ---------- the instructions ----------

  lemma ModeFor(r: bv32, frm: nat) returns (mode: I.Mode)
    requires r < 8 && frm < 5
    ensures r != 5 && r != 6 ==> Uses(r, frm, mode)
  {
    var k := if r == 7 then frm else RoundingOf(r, frm);
    mode := if k == 0 then I.RNE else if k == 1 then I.RTZ else if k == 2 then I.RDN else if k == 3 then I.RUP else I.RMM;
  }

  lemma RoundingOp(m: Mnemonic, dbl: bool, r: bv32, frm: nat, mode: I.Mode)
    requires Rounds(m) && Uses(r, frm, mode)
    ensures !Named(m, dbl, RoundingOf(r, frm)).Refused? && F.Rounding(Named(m, dbl, RoundingOf(r, frm)).op)
  {
    UsesIs(r, frm, mode);
    hide Uses;
    hide RoundingOf;
  }

  lemma DecodedIs(frm: nat, m: Mnemonic, dbl: bool, r: bv32, rd: bv32, rs1: bv32, rs2: bv32, rs3: bv32)
    requires Decoded(frm, m, dbl, r, rd, rs1, rs2, rs3) && Rounds(m) && Fields(r, rd, rs1, rs2, rs3)
    ensures var i := FloatWord(m, dbl, r, rd, rs1, rs2, rs3);
      && Opcode(i) in {0x43, 0x47, 0x4B, 0x4F, 0x53} && Rd(i) == rd && IsaFloat.Operands(i, m, rd, rs1, rs2, rs3)
      && FloatOf(frm, i) == (if r == 5 || r == 6 then Refused else Named(m, dbl, RoundingOf(r, frm))) && r < 8
  {
    hide FloatWord;
    hide FloatOf;
    hide Named;
    hide RoundingOf;
    hide Opcode;
    hide Rd;
    hide Rs1;
    hide Rs2;
    hide Third;
  }

  lemma ReadsIs(s: State, m: Mnemonic, dbl: bool, r: bv32, i: bv32, rd: bv32, rs1: bv32, rs2: bv32, rs3: bv32)
    requires IsaFloat.Operands(i, m, rd, rs1, rs2, rs3) && Rounds(m)
    ensures var choice := Named(m, dbl, RoundingOf(r, s.unit.frm));
      !choice.Refused? && Reads(s, m, rs1, rs2, rs3, F.Operands(s, choice.op, i))
  {
    hide RoundingOf;
    hide Rd;
    hide Rs1;
    hide Rs2;
    hide Named;
    FromOps(m, dbl, RoundingOf(r, s.unit.frm));
    ThirdIs(i);
    hide Third;
  }

  lemma FromOps(m: Mnemonic, dbl: bool, rm: int)
    requires Rounds(m)
    ensures var choice := Named(m, dbl, rm);
      !choice.Refused? && (choice.op.fn.FromInt? <==> m == FFromW || m == FFromWU || m == FFromL || m == FFromLU)
  {
  }

  lemma ThirdIs(i: bv32)
    ensures Third(i) == i >> 27
  {
  }

  lemma RunRefused(s: State, i: bv32, env: Env, t: State, o: Outcome)
    requires Matches(s, Executed(s, i, env), t, o)
    requires s.unit.fs == 0 || FloatOf(s.unit.frm, i).Refused?
    requires Executed(s, i, env) == if s.unit.fs == 0 then Refuse(s, i) else FloatPerform(s, i, i, Plus(s.pc, 4), env)
    ensures o == Exception(2) && t == s.(tval := i as bv64)
  {
    hide Executed;
    hide FloatOf;
    hide Plus;
  }

  /** The step on an instruction word, the library answering the call it makes. */
  lemma Ran(s: State, m: Mnemonic, dbl: bool, r: bv32, mode: I.Mode, rd: bv32, rs1: bv32, rs2: bv32, rs3: bv32,
            op: FloatOp, abc: (bv64, bv64, bv64), flags: set<I.Flag>, w: nat, t: State, o: Outcome)
    requires Rounds(m) && Fields(r, rd, rs1, rs2, rs3) && Uses(r, s.unit.frm, mode) && s.unit.fs != 0
    requires var choice := Named(m, dbl, RoundingOf(r, s.unit.frm)); !choice.Refused? && op == choice.op
    requires F.Rounding(op) && F.Delivers3(op, abc.0, abc.1, abc.2, flags, w)
    requires var i := FloatWord(m, dbl, r, rd, rs1, rs2, rs3); var out := FpOut(F.ValueOf(op, w), F.FlagBits(flags));
      abc == F.Operands(s, op, i) && Matches(s, Executed(s, i, F.EnvOf(op, abc, out)), t, o)
    ensures o == Completed(None) && Computes(m, dbl, mode, s, rs1, rs2, rs3, flags, w) && Lands(m, dbl, s, t, rd, flags, w)
  {
    hide *;
    var i, out := FloatWord(m, dbl, r, rd, rs1, rs2, rs3), FpOut(F.ValueOf(op, w), F.FlagBits(flags));
    UsesIs(r, s.unit.frm, mode);
    Decodes(s.unit.frm, m, dbl, r, rd, rs1, rs2, rs3);
    DecodedIs(s.unit.frm, m, dbl, r, rd, rs1, rs2, rs3);
    NotUsed(r, s.unit.frm, mode);
    FloatRuns(s, i, F.EnvOf(op, abc, out));
    Landing(m, dbl, RoundingOf(r, s.unit.frm), rd, s, i, op, abc, flags, w, t, o);
    ReadsIs(s, m, dbl, r, i, rd, rs1, rs2, rs3);
    Delivered(m, dbl, r, mode, s, rs1, rs2, rs3, abc, flags, w);
  }

  lemma NotUsed(r: bv32, frm: nat, mode: I.Mode)
    requires Uses(r, frm, mode)
    ensures r != 5 && r != 6
  {
  }

  lemma RanRefused(s: State, m: Mnemonic, dbl: bool, r: bv32, rd: bv32, rs1: bv32, rs2: bv32, rs3: bv32, env: Env, t: State, o: Outcome)
    requires Rounds(m) && Fields(r, rd, rs1, rs2, rs3) && (s.unit.fs == 0 || r == 5 || r == 6)
    requires Matches(s, Executed(s, FloatWord(m, dbl, r, rd, rs1, rs2, rs3), env), t, o)
    ensures o == Exception(2) && t == s.(tval := FloatWord(m, dbl, r, rd, rs1, rs2, rs3) as bv64)
  {
    hide *;
    var i := FloatWord(m, dbl, r, rd, rs1, rs2, rs3);
    Decodes(s.unit.frm, m, dbl, r, rd, rs1, rs2, rs3);
    DecodedIs(s.unit.frm, m, dbl, r, rd, rs1, rs2, rs3);
    FloatRuns(s, i, env);
    RunRefused(s, i, env, t, o);
  }

  /** A floating-point instruction word that rounds, from the fetched word on: refused if the unit is
      off or the rounding mode is none, and otherwise the word and the flags the instruction is to compute,
      where they are to go. */
  method Run(core: Interpreter, m: Mnemonic, dbl: bool, r: bv32, rd: bv32, rs1: bv32, rs2: bv32, rs3: bv32)
    returns (o: Outcome, ghost mode: I.Mode, ghost flags: set<I.Flag>, w: nat)
    requires core.View().x(0) == 0 && core.View().unit.frm < 5
    requires Rounds(m) && Fields(r, rd, rs1, rs2, rs3)
    modifies core
    ensures var s, t, word := old(core.View()), core.View(), FloatWord(m, dbl, r, rd, rs1, rs2, rs3);
      if s.unit.fs == 0 || r == 5 || r == 6 then
        o == Exception(2) && t == s.(tval := word as bv64)
      else
        && o == Completed(None) && Uses(r, s.unit.frm, mode)
        && Computes(m, dbl, mode, s, rs1, rs2, rs3, flags, w) && Lands(m, dbl, s, t, rd, flags, w)
  {
    hide *;
    FieldBound(r, rd, rs1, rs2, rs3);
    var s := core.View();
    var word, frm := FloatWord(m, dbl, r, rd, rs1, rs2, rs3), s.unit.frm;
    if s.unit.fs != 0 && r != 5 && r != 6 {
      mode := ModeFor(r, frm);
      RoundingOp(m, dbl, r, frm, mode);
      var op := Named(m, dbl, RoundingOf(r, frm)).op;
      var abc := F.Operands(s, op, word);
      var out;
      out, flags, w := F.Compute(op, abc.0, abc.1, abc.2);
      o := core.Step(word, F.EnvOf(op, abc, out));
      Ran(s, m, dbl, r, mode, rd, rs1, rs2, rs3, op, abc, flags, w, core.View(), o);
    } else {
      mode, flags, w := I.RNE, {}, 0;
      var env := Env(Done(0), Done(0), (op, a, b, c) => FpOut(0, 0));
      o := core.Step(word, env);
      RanRefused(s, m, dbl, r, rd, rs1, rs2, rs3, env, core.View(), o);
    }
  }

  lemma FieldBound(r: bv32, rd: bv32, rs1: bv32, rs2: bv32, rs3: bv32)
    requires Fields(r, rd, rs1, rs2, rs3)
    ensures r < 8
  {
  }
}
