/** The floating-point instructions over numbers: which word is which operation, from the opcode
    tables of the F and D extensions (chapter 24 of the RISC-V Unprivileged ISA 20191213), and what
    each delivers (instructions.c:1164-1716). */
module IsaFloat {
  import opened Bits
  import B = BitSets
  import opened Words
  import opened Rvc
  import opened RvcDecode
  import opened Core
  import opened Numbers
  import opened Shifts
  import opened Isa
  import opened IsaMemory
  import H = Hart
  import I = Ieee

  // ---------- the words ----------

  /** The instructions without their format suffixes; `FCvtF` converts from the other format,
      `FFromW` to `FFromLU` from integers, `FMvF` moves to a floating-point register. */
  datatype Mnemonic =
    | FMadd | FMsub | FNmsub | FNmadd | FAdd | FSub | FMul | FDiv | FSqrt
    | FCvtF | FCvtW | FCvtWU | FCvtL | FCvtLU | FFromW | FFromWU | FFromL | FFromLU
    | FSgnj | FSgnjn | FSgnjx | FMin | FMax | FLe | FLt | FEq | FClass | FMvX | FMvF

  /** The opcode tables, for the single format. */
  function Table(m: Mnemonic): bv32 {
    match m
    case FMadd => 0x0000_0043
    case FMsub => 0x0000_0047
    case FNmsub => 0x0000_004B
    case FNmadd => 0x0000_004F
    case FAdd => 0x0000_0053
    case FSub => 0x0800_0053
    case FMul => 0x1000_0053
    case FDiv => 0x1800_0053
    case FSqrt => 0x5800_0053
    case FCvtF => 0x4010_0053
    case FCvtW => 0xC000_0053
    case FCvtWU => 0xC010_0053
    case FCvtL => 0xC020_0053
    case FCvtLU => 0xC030_0053
    case FFromW => 0xD000_0053
    case FFromWU => 0xD010_0053
    case FFromL => 0xD020_0053
    case FFromLU => 0xD030_0053
    case FSgnj => 0x2000_0053
    case FSgnjn => 0x2000_1053
    case FSgnjx => 0x2000_2053
    case FMin => 0x2800_0053
    case FMax => 0x2800_1053
    case FLe => 0xA000_0053
    case FLt => 0xA000_1053
    case FEq => 0xA000_2053
    case FClass => 0xE000_1053
    case FMvX => 0xE000_0053
    case FMvF => 0xF000_0053
  }

  /** The double format has bit 25 set; fcvt.d.s names the other source format too. */
  function Coded(m: Mnemonic, dbl: bool): bv32 {
    if !dbl then Table(m) else if m == FCvtF then 0x4200_0053 else Table(m) | 0x0200_0000
  }

  predicate Fused(m: Mnemonic) {
    m == FMadd || m == FMsub || m == FNmsub || m == FNmadd
  }

  /** The instructions with a rounding mode. */
  predicate Rounds(m: Mnemonic) {
    match m
    case FSgnj => false
    case FSgnjn => false
    case FSgnjx => false
    case FMin => false
    case FMax => false
    case FLe => false
    case FLt => false
    case FEq => false
    case FClass => false
    case FMvX => false
    case FMvF => false
    case _ => true
  }

  /** The instructions with a second operand. */
  predicate Binary(m: Mnemonic) {
    match m
    case FSqrt => false
    case FCvtF => false
    case FCvtW => false
    case FCvtWU => false
    case FCvtL => false
    case FCvtLU => false
    case FFromW => false
    case FFromWU => false
    case FFromL => false
    case FFromLU => false
    case FClass => false
    case FMvX => false
    case FMvF => false
    case _ => true
  }

  /** An instruction word; `r` is the rounding mode, `rs3` the third operand of the fused ones. */
  function FloatWord(m: Mnemonic, dbl: bool, r: bv32, rd: bv32, rs1: bv32, rs2: bv32, rs3: bv32): bv32 {
    Assemble(Coded(m, dbl), if Rounds(m) then r else 0, rd, rs1, if Binary(m) then rs2 else 0, if Fused(m) then rs3 else 0)
  }

  function Assemble(code: bv32, mode: bv32, rd: bv32, rs1: bv32, second: bv32, third: bv32): bv32 {
    code | (rd << 7) | (mode << 12) | (rs1 << 15) | (second << 20) | (third << 27)
  }

  // the fields of the fused instructions
  function Format(i: bv32): bv32 { (i >> 25) & 3 }
  function Third(i: bv32): bv32 { i >> 27 }

  predicate Fields(r: bv32, rd: bv32, rs1: bv32, rs2: bv32, rs3: bv32) {
    r < 8 && rd < 32 && rs1 < 32 && rs2 < 32 && rs3 < 32
  }

  // ---------- decoding the words ----------

  /** The rounding mode an instruction names, 7 being the one in frm. */
  function RoundingOf(r: bv32, frm: nat): int {
    if r == 7 then frm else if r == 0 then 0 else if r == 1 then 1 else if r == 2 then 2 else if r == 3 then 3 else 4
  }

  predicate Mode(r: bv32) {
    r < 5 || r == 7
  }

  lemma ModeIs(r: bv32, frm: nat)
    requires r < 8
    ensures InstRm(frm, r) == (if Mode(r) then RoundingOf(r, frm) else -1) && RoundingOf(r, frm) >= 0
  {
  }

  /** The fields of an opcode with its function codes: funct7, funct3 and rs2. */
  predicate Layout(code: bv32, f7: bv32, f3: bv32, r2: bv32) {
    f7 < 128 && f3 < 8 && r2 < 32 && code == (f7 << 25) | (r2 << 20) | (f3 << 12) | 0x53
  }

  /** Function codes and operands share no bits. */
  lemma NormalFields(code: bv32, f7: bv32, f3: bv32, r2: bv32, mode: bv32, rd: bv32, rs1: bv32, second: bv32)
    requires Layout(code, f7, f3, r2) && Fields(mode, rd, rs1, second, 0)
    requires (f3 == 0 || mode == 0) && (r2 == 0 || second == 0)
    ensures var i := Assemble(code, mode, rd, rs1, second, 0);
      && Opcode(i) == 0x53 && Funct7(i) == f7 && Rd(i) == rd && Rs1(i) == rs1
      && Funct3(i) == (if mode == 0 then f3 else mode) && Rs2(i) == (if second == 0 then r2 else second)
  {
  }

  /** The operation an instruction names, with the register file of its result and whether the unit
      becomes dirty. */
  function Named(m: Mnemonic, dbl: bool, rm: int): FloatChoice {
    match m
    case FMadd => ToFp(FloatOp(Fma(false, false), dbl, rm), true)
    case FMsub => ToFp(FloatOp(Fma(false, true), dbl, rm), true)
    case FNmsub => ToFp(FloatOp(Fma(true, false), dbl, rm), true)
    case FNmadd => ToFp(FloatOp(Fma(true, true), dbl, rm), true)
    case FAdd => ToFp(FloatOp(Add, dbl, rm), true)
    case FSub => ToFp(FloatOp(Sub, dbl, rm), true)
    case FMul => ToFp(FloatOp(Mul, dbl, rm), true)
    case FDiv => ToFp(FloatOp(Div, dbl, rm), true)
    case FSqrt => ToFp(FloatOp(Sqrt, dbl, rm), true)
    case FCvtF => ToFp(FloatOp(Convert, dbl, rm), false)
    case FCvtW => ToX(FloatOp(ToInt(0), dbl, rm))
    case FCvtWU => ToX(FloatOp(ToInt(1), dbl, rm))
    case FCvtL => ToX(FloatOp(ToInt(2), dbl, rm))
    case FCvtLU => ToX(FloatOp(ToInt(3), dbl, rm))
    case FFromW => ToFp(FloatOp(FromInt(0), dbl, rm), true)
    case FFromWU => ToFp(FloatOp(FromInt(1), dbl, rm), true)
    case FFromL => ToFp(FloatOp(FromInt(2), dbl, rm), true)
    case FFromLU => ToFp(FloatOp(FromInt(3), dbl, rm), true)
    case FSgnj => ToFp(FloatOp(Sign(0), dbl, 0), true)
    case FSgnjn => ToFp(FloatOp(Sign(1), dbl, 1), true)
    case FSgnjx => ToFp(FloatOp(Sign(2), dbl, 2), true)
    case FMin => ToFp(FloatOp(Min, dbl, 0), true)
    case FMax => ToFp(FloatOp(Max, dbl, 1), true)
    case FLe => ToX(FloatOp(Le, dbl, 0))
    case FLt => ToX(FloatOp(Lt, dbl, 1))
    case FEq => ToX(FloatOp(Eq, dbl, 2))
    case FClass => ToX(FloatOp(Class, dbl, 1))
    case FMvX => ToX(FloatOp(MoveOut, dbl, 0))
    case FMvF => ToFp(FloatOp(MoveIn, dbl, 0), true)
  }

  lemma Arithmetic(m: Mnemonic, dbl: bool, rm: int, second: bv32, f3: bv32) returns (f7: bv32)
    requires m in {FAdd, FSub, FMul, FDiv}
    ensures Layout(Coded(m, dbl), f7, 0, 0)
    ensures NormalOf(rm, f7, second, f3) == if rm < 0 then Refused else Named(m, dbl, rm)
  {
    f7 := match m
      case FAdd => if dbl then 0x01 else 0x00
      case FSub => if dbl then 0x05 else 0x04
      case FMul => if dbl then 0x09 else 0x08
      case _ => if dbl then 0x0D else 0x0C;
  }

  lemma Unary(m: Mnemonic, dbl: bool, rm: int, f3: bv32) returns (f7: bv32, r2: bv32)
    requires m in {FSqrt, FCvtF, FCvtW, FCvtWU, FCvtL, FCvtLU, FFromW, FFromWU, FFromL, FFromLU}
    ensures Layout(Coded(m, dbl), f7, 0, r2)
    ensures NormalOf(rm, f7, r2, f3) == if rm < 0 then Refused else Named(m, dbl, rm)
  {
    match m {
      case FSqrt => f7, r2 := if dbl then 0x2D else 0x2C, 0;
      case FCvtF => f7, r2 := if dbl then 0x21 else 0x20, if dbl then 0 else 1;
      case FCvtW => f7, r2 := if dbl then 0x61 else 0x60, 0;
      case FCvtWU => f7, r2 := if dbl then 0x61 else 0x60, 1;
      case FCvtL => f7, r2 := if dbl then 0x61 else 0x60, 2;
      case FCvtLU => f7, r2 := if dbl then 0x61 else 0x60, 3;
      case FFromW => f7, r2 := if dbl then 0x69 else 0x68, 0;
      case FFromWU => f7, r2 := if dbl then 0x69 else 0x68, 1;
      case FFromL => f7, r2 := if dbl then 0x69 else 0x68, 2;
      case FFromLU => f7, r2 := if dbl then 0x69 else 0x68, 3;
    }
  }

  /** The instructions whose mode field says which one is meant. */
  lemma Selected(m: Mnemonic, dbl: bool, frm: nat, second: bv32) returns (f7: bv32, f3: bv32)
    requires !Rounds(m) && (Binary(m) || second == 0)
    ensures Layout(Coded(m, dbl), f7, f3, 0)
    ensures NormalOf(InstRm(frm, f3), f7, second, f3) == Named(m, dbl, 0)
  {
    match m {
      case FSgnj => f7, f3 := if dbl then 0x11 else 0x10, 0;
      case FSgnjn => f7, f3 := if dbl then 0x11 else 0x10, 1;
      case FSgnjx => f7, f3 := if dbl then 0x11 else 0x10, 2;
      case FMin => f7, f3 := if dbl then 0x15 else 0x14, 0;
      case FMax => f7, f3 := if dbl then 0x15 else 0x14, 1;
      case FLe => f7, f3 := if dbl then 0x51 else 0x50, 0;
      case FLt => f7, f3 := if dbl then 0x51 else 0x50, 1;
      case FEq => f7, f3 := if dbl then 0x51 else 0x50, 2;
      case FClass => f7, f3 := if dbl then 0x71 else 0x70, 1;
      case FMvX => f7, f3 := if dbl then 0x71 else 0x70, 0;
      case FMvF => f7, f3 := if dbl then 0x79 else 0x78, 0;
    }
  }

  lemma FusedFields(code: bv32, op: bv32, fmt: bv32, mode: bv32, rd: bv32, rs1: bv32, rs2: bv32, rs3: bv32)
    requires op < 128 && fmt < 4 && code == op | (fmt << 25) && Fields(mode, rd, rs1, rs2, rs3)
    ensures var i := Assemble(code, mode, rd, rs1, rs2, rs3);
      && Opcode(i) == op && Rd(i) == rd && Rs1(i) == rs1 && Rs2(i) == rs2 && Funct3(i) == mode
      && Third(i) == rs3 && Format(i) == fmt
  {
  }

  lemma FusedCode(m: Mnemonic, dbl: bool) returns (fmt: bv32)
    requires Fused(m)
    ensures fmt == if dbl then 1 else 0
    ensures fmt < 4 && Table(m) < 128 && Coded(m, dbl) == Table(m) | (fmt << 25)
  {
    fmt := if dbl then 1 else 0;
  }

  lemma FusedIs(m: Mnemonic, dbl: bool, rm: int)
    requires Fused(m)
    ensures FusedOf(Table(m), rm, if dbl then 1 else 0) == if rm < 0 then Refused else Named(m, dbl, rm)
  {
  }

  /** The operands of an instruction word. */
  predicate Operands(i: bv32, m: Mnemonic, rd: bv32, rs1: bv32, rs2: bv32, rs3: bv32) {
    Rd(i) == rd && Rs1(i) == rs1 && (Binary(m) ==> Rs2(i) == rs2) && (Fused(m) ==> Third(i) == rs3)
  }

  lemma ByFields(frm: nat, i: bv32)
    ensures Opcode(i) == 0x53 ==> FloatOf(frm, i) == NormalOf(InstRm(frm, Funct3(i)), Funct7(i), Rs2(i), Funct3(i))
    ensures Opcode(i) != 0x53 ==> FloatOf(frm, i) == FusedOf(Opcode(i), InstRm(frm, Funct3(i)), Format(i))
  {
    hide Opcode;
    hide Funct3;
    hide Funct7;
    hide Rs2;
    hide InstRm;
    hide NormalOf;
    hide FusedOf;
  }

  /** The word is read as its operation, format, mode and operands; the two modes the tables do not
      have are refused. */
  predicate Decoded(frm: nat, m: Mnemonic, dbl: bool, r: bv32, rd: bv32, rs1: bv32, rs2: bv32, rs3: bv32) {
    var i := FloatWord(m, dbl, r, rd, rs1, rs2, rs3);
    && FloatOf(frm, i) == (if Rounds(m) && !Mode(r) then Refused else Named(m, dbl, RoundingOf(r, frm)))
    && Operands(i, m, rd, rs1, rs2, rs3) && Opcode(i) in {0x43, 0x47, 0x4B, 0x4F, 0x53}
  }

  lemma Kinds(m: Mnemonic)
    ensures Fused(m) ==> Rounds(m) && Binary(m)
    ensures Rounds(m) && Binary(m) && !Fused(m) ==> m in {FAdd, FSub, FMul, FDiv}
    ensures Rounds(m) && !Binary(m) ==> m in {FSqrt, FCvtF, FCvtW, FCvtWU, FCvtL, FCvtLU, FFromW, FFromWU, FFromL, FFromLU}
  {
  }

  lemma FewerFields(r: bv32, rd: bv32, rs1: bv32, rs2: bv32, rs3: bv32)
    requires Fields(r, rd, rs1, rs2, rs3)
    ensures Fields(r, rd, rs1, 0, 0) && Fields(r, rd, rs1, rs2, 0) && Fields(0, rd, rs1, 0, 0) && Fields(0, rd, rs1, rs2, 0)
    ensures r < 8
  {
  }

  lemma WordIs(m: Mnemonic, dbl: bool, r: bv32, rd: bv32, rs1: bv32, rs2: bv32, rs3: bv32)
    ensures FloatWord(m, dbl, r, rd, rs1, rs2, rs3)
         == Assemble(Coded(m, dbl), if Rounds(m) then r else 0, rd, rs1, if Binary(m) then rs2 else 0, if Fused(m) then rs3 else 0)
  {
    hide Coded;
    hide Assemble;
    hide Rounds;
    hide Binary;
    hide Fused;
  }

  lemma Folded(frm: nat, m: Mnemonic, dbl: bool, r: bv32, rd: bv32, rs1: bv32, rs2: bv32, rs3: bv32)
    requires var i := FloatWord(m, dbl, r, rd, rs1, rs2, rs3);
      && FloatOf(frm, i) == (if Rounds(m) && InstRm(frm, r) < 0 then Refused else Named(m, dbl, InstRm(frm, r)))
      && Rd(i) == rd && Rs1(i) == rs1 && (Binary(m) ==> Rs2(i) == rs2) && (Fused(m) ==> Third(i) == rs3)
      && Opcode(i) in {0x43, 0x47, 0x4B, 0x4F, 0x53} && r < 8
    ensures Decoded(frm, m, dbl, r, rd, rs1, rs2, rs3)
  {
    hide Opcode;
    hide Rd;
    hide Rs1;
    hide Rs2;
    hide InstRm;
    hide FloatOf;
    hide FloatWord;
    hide Third;
    hide Named;
    hide Binary;
    hide Fused;
    hide Mode;
    hide RoundingOf;
    ModeIs(r, frm);
    if !Rounds(m) {
      ModeFree(m, dbl, InstRm(frm, r));
      ModeFree(m, dbl, RoundingOf(r, frm));
    }
    hide Rounds;
  }

  lemma UnaryDecodes(frm: nat, m: Mnemonic, dbl: bool, r: bv32, rd: bv32, rs1: bv32, rs2: bv32, rs3: bv32)
    requires Fields(r, rd, rs1, rs2, rs3) && Rounds(m) && !Binary(m)
    ensures Decoded(frm, m, dbl, r, rd, rs1, rs2, rs3)
  {
    hide *;
    Kinds(m);
    FewerFields(r, rd, rs1, rs2, rs3);
    WordIs(m, dbl, r, rd, rs1, rs2, rs3);
    ByFields(frm, FloatWord(m, dbl, r, rd, rs1, rs2, rs3));
    var f7, r2 := Unary(m, dbl, InstRm(frm, r), r);
    NormalFields(Coded(m, dbl), f7, 0, r2, r, rd, rs1, 0);
    Folded(frm, m, dbl, r, rd, rs1, rs2, rs3);
  }

  lemma ArithmeticDecodes(frm: nat, m: Mnemonic, dbl: bool, r: bv32, rd: bv32, rs1: bv32, rs2: bv32, rs3: bv32)
    requires Fields(r, rd, rs1, rs2, rs3) && Rounds(m) && Binary(m) && !Fused(m)
    ensures Decoded(frm, m, dbl, r, rd, rs1, rs2, rs3)
  {
    hide *;
    Kinds(m);
    FewerFields(r, rd, rs1, rs2, rs3);
    WordIs(m, dbl, r, rd, rs1, rs2, rs3);
    ByFields(frm, FloatWord(m, dbl, r, rd, rs1, rs2, rs3));
    var f7 := Arithmetic(m, dbl, InstRm(frm, r), rs2, r);
    NormalFields(Coded(m, dbl), f7, 0, 0, r, rd, rs1, rs2);
    Folded(frm, m, dbl, r, rd, rs1, rs2, rs3);
  }

  lemma SelectedDecodes(frm: nat, m: Mnemonic, dbl: bool, r: bv32, rd: bv32, rs1: bv32, rs2: bv32, rs3: bv32)
    requires Fields(r, rd, rs1, rs2, rs3) && !Rounds(m)
    ensures Decoded(frm, m, dbl, r, rd, rs1, rs2, rs3)
  {
    hide *;
    Kinds(m);
    FewerFields(r, rd, rs1, rs2, rs3);
    WordIs(m, dbl, r, rd, rs1, rs2, rs3);
    ByFields(frm, FloatWord(m, dbl, r, rd, rs1, rs2, rs3));
    var second := if Binary(m) then rs2 else 0;
    var f7, f3 := Selected(m, dbl, frm, second);
    NormalFields(Coded(m, dbl), f7, f3, 0, 0, rd, rs1, second);
    ModeFree(m, dbl, InstRm(frm, r));
    Folded(frm, m, dbl, r, rd, rs1, rs2, rs3);
  }

  lemma FusedDecodes(frm: nat, m: Mnemonic, dbl: bool, r: bv32, rd: bv32, rs1: bv32, rs2: bv32, rs3: bv32)
    requires Fields(r, rd, rs1, rs2, rs3) && Fused(m)
    ensures Decoded(frm, m, dbl, r, rd, rs1, rs2, rs3)
  {
    hide *;
    Kinds(m);
    FewerFields(r, rd, rs1, rs2, rs3);
    WordIs(m, dbl, r, rd, rs1, rs2, rs3);
    ByFields(frm, FloatWord(m, dbl, r, rd, rs1, rs2, rs3));
    var fmt := FusedCode(m, dbl);
    FusedFields(Coded(m, dbl), Table(m), fmt, r, rd, rs1, rs2, rs3);
    FusedIs(m, dbl, InstRm(frm, r));
    FusedTable(m);
    Folded(frm, m, dbl, r, rd, rs1, rs2, rs3);
  }

  lemma ModeFree(m: Mnemonic, dbl: bool, rm: int)
    requires !Rounds(m)
    ensures Named(m, dbl, rm) == Named(m, dbl, 0)
  {
  }

  lemma FusedTable(m: Mnemonic)
    requires Fused(m)
    ensures Table(m) in {0x43, 0x47, 0x4B, 0x4F}
  {
  }

  /** Every word of the tables, whatever its operands. */
  lemma Decodes(frm: nat, m: Mnemonic, dbl: bool, r: bv32, rd: bv32, rs1: bv32, rs2: bv32, rs3: bv32)
    requires Fields(r, rd, rs1, rs2, rs3)
    ensures Decoded(frm, m, dbl, r, rd, rs1, rs2, rs3)
  {
    hide Decoded;
    if Fused(m) {
      FusedDecodes(frm, m, dbl, r, rd, rs1, rs2, rs3);
    } else if !Rounds(m) {
      SelectedDecodes(frm, m, dbl, r, rd, rs1, rs2, rs3);
    } else if Binary(m) {
      ArithmeticDecodes(frm, m, dbl, r, rd, rs1, rs2, rs3);
    } else {
      UnaryDecodes(frm, m, dbl, r, rd, rs1, rs2, rs3);
    }
  }

  // ---------- performing the words ----------

  lemma FloatIs(s: State, i: bv32)
    requires Opcode(i) in {0x43, 0x47, 0x4B, 0x4F, 0x53}
    ensures Acts(s, i, if s.unit.fs != 0 then Float(i) else ILLEGAL)
  {
    FloatSize(i);
    hide Opcode;
    hide Quadrant;
  }

  lemma FloatSize(i: bv32)
    requires Opcode(i) in {0x43, 0x47, 0x4B, 0x4F, 0x53}
    ensures Quadrant(i) == 3
  {
  }

  lemma FloatRuns(s: State, i: bv32, env: Env)
    requires Opcode(i) in {0x43, 0x47, 0x4B, 0x4F, 0x53}
    ensures Executed(s, i, env) == if s.unit.fs == 0 then Refuse(s, i) else FloatPerform(s, i, i, Plus(s.pc, 4), env)
  {
    FloatIs(s, i);
    hide Opcode;
    hide Quadrant;
    hide BaseAct;
    hide FloatPerform;
    hide Plus;
    hide Refuse;
    if s.unit.fs == 0 {
      assert Executed(s, i, env) == Perform(s, ILLEGAL, i, 4, env);
    } else {
      assert Executed(s, i, env) == Perform(s, Float(i), i, 4, env);
    }
  }

  /** Floating-point register `rd` gets the number `n`, and the unit becomes dirty. */
  ghost predicate FloatGets(s: State, word: bv32, env: Env, rd: bv32, n: int) {
    var r := Executed(s, word, env);
    && NeedsUnit(s, word, env)
    && (s.unit.fs != 0 ==>
          && r.Retired? && r.stored == None && Num(r.state.pc) == After(s)
          && r.state == s.(fp := r.state.fp, unit := s.unit.(fs := 3), pc := r.state.pc)
          && Num(r.state.fp(rd)) == n && (forall k :: k != rd ==> r.state.fp(k) == s.fp(k)))
  }

  /** A silent operation with a floating-point result. */
  lemma SilentGets(s: State, i: bv32, env: Env, op: FloatOp, rd: bv32, v: bv64)
    requires Opcode(i) in {0x43, 0x47, 0x4B, 0x4F, 0x53} && Rd(i) == rd
    requires FloatOf(s.unit.frm, i) == ToFp(op, true) && Computed(s, op, i, env) == FpOut(v, 0) && FpResult(op, v) == v
    ensures FloatGets(s, i, env, rd, Num(v))
  {
    hide Opcode;
    hide Rd;
    hide FloatOf;
    hide Computed;
    hide FpResult;
    hide Num;
    hide Executed;
    FloatRuns(s, i, env);
    NextPc(s.pc);
    NoFlag(s.unit.fflags);
    hide Plus;
  }

  /** And with an integer result. */
  lemma SilentGives(s: State, i: bv32, env: Env, op: FloatOp, rd: bv32, v: bv64)
    requires Opcode(i) in {0x43, 0x47, 0x4B, 0x4F, 0x53} && Rd(i) == rd && s.unit.fs != 0
    requires FloatOf(s.unit.frm, i) == ToX(op) && Computed(s, op, i, env) == FpOut(v, 0)
    ensures Gives(s, i, env, rd, Num(v))
  {
    hide Opcode;
    hide Rd;
    hide FloatOf;
    hide Computed;
    hide Num;
    hide Executed;
    FloatRuns(s, i, env);
    NextPc(s.pc);
    NoFlag(s.unit.fflags);
    hide Plus;
  }

  // ---------- signs ----------

  /** The bits from `k` on taken from `b`, from its complement, or combined with those of `a`; the
      bits below are those of `a`. */
  ghost predicate Signs(k: nat, a: nat, b: nat, copied: nat, negated: nat, product: nat) {
    forall i: nat :: i < 64 ==>
      && (B.BitOf(copied, i) <==> if i < k then B.BitOf(a, i) else B.BitOf(b, i))
      && (B.BitOf(negated, i) <==> if i < k then B.BitOf(a, i) else !B.BitOf(b, i))
      && (B.BitOf(product, i) <==> if i < k then B.BitOf(a, i) else B.BitOf(a, i) != B.BitOf(b, i))
  }

  lemma SignMask(dbl: bool, low: bv64)
    requires low == if dbl then 0x7FFF_FFFF_FFFF_FFFF else 0x7FFF_FFFF
    ensures Not(low) == if dbl then 0x8000_0000_0000_0000 else 0xFFFF_FFFF_8000_0000
  {
  }

  lemma CopiedDouble(a: bv64, b: bv64)
    ensures SignValue(true, 0, a, b) == Or(And(a, 0x7FFF_FFFF_FFFF_FFFF), And(b, 0x8000_0000_0000_0000))
  {
  }

  lemma CopiedSingle(a: bv64, b: bv64)
    ensures SignValue(false, 0, a, b) == Or(And(a, 0x7FFF_FFFF), And(b, 0xFFFF_FFFF_8000_0000))
  {
  }

  lemma NegatedDouble(a: bv64, b: bv64)
    ensures SignValue(true, 1, a, b) == Or(And(a, 0x7FFF_FFFF_FFFF_FFFF), And(Not(b), 0x8000_0000_0000_0000))
  {
  }

  lemma NegatedSingle(a: bv64, b: bv64)
    ensures SignValue(false, 1, a, b) == Or(And(a, 0x7FFF_FFFF), And(Not(b), 0xFFFF_FFFF_8000_0000))
  {
  }

  lemma ProductDouble(a: bv64, b: bv64)
    ensures SignValue(true, 2, a, b) == Xor(a, And(b, 0x8000_0000_0000_0000))
  {
    hide Xor;
    hide And;
    assert SignValue(true, 2, a, b) == a ^ (b & 0x8000_0000_0000_0000);
    XorIs(a, b, 0x8000_0000_0000_0000);
  }

  lemma ProductMask(a: bv64, b: bv64)
    ensures SignValue(false, 2, a, b) == a ^ (b & SIGN32)
  {
  }

  lemma XorIs(a: bv64, b: bv64, m: bv64)
    ensures a ^ (b & m) == Xor(a, And(b, m))
  {
  }

  lemma ProductSingle(a: bv64, b: bv64)
    ensures SignValue(false, 2, a, b) == Xor(a, And(b, 0xFFFF_FFFF_8000_0000))
  {
    hide Xor;
    hide And;
    ProductMask(a, b);
    XorIs(a, b, SIGN32);
  }

  /** The masks of the code are those of the bits up to the sign. */
  lemma SignParts(dbl: bool, a: bv64, b: bv64, low: bv64)
    requires low == if dbl then 0x7FFF_FFFF_FFFF_FFFF else 0x7FFF_FFFF
    ensures SignValue(dbl, 0, a, b) == Or(And(a, low), And(b, Not(low)))
    ensures SignValue(dbl, 1, a, b) == Or(And(a, low), And(Not(b), Not(low)))
    ensures SignValue(dbl, 2, a, b) == Xor(a, And(b, Not(low)))
  {
    hide *;
    SignMask(dbl, low);
    if dbl {
      CopiedDouble(a, b);
      NegatedDouble(a, b);
      ProductDouble(a, b);
    } else {
      CopiedSingle(a, b);
      NegatedSingle(a, b);
      ProductSingle(a, b);
    }
  }

  lemma BitHalf(h: nat, o: nat, i: nat)
    requires o <= 1
    ensures B.BitOf(2 * h + o, i) <==> if i == 0 then o == 1 else B.BitOf(h, i - 1)
  {
    if i == 0 {
      OnePow();
    } else {
      QuotHalf(h, o, Pow2(i - 1));
    }
  }

  lemma {:induction false} OnesBits(k: nat, i: nat)
    ensures B.BitOf(Pow2(k) - 1, i) <==> i < k
    decreases k
  {
    hide B.BitOf;
    if k == 0 {
      NoBits(i);
    } else {
      BitHalf(Pow2(k - 1) - 1, 1, i);
      if i > 0 {
        OnesBits(k - 1, i - 1);
      }
    }
  }

  lemma NoBits(i: nat)
    ensures !B.BitOf(0, i)
  {
    DivUnique(0, Pow2(i), 0, 0);
  }

  const ALL: bv64 := 0xFFFF_FFFF_FFFF_FFFF

  lemma NotBits(v: bv64, i: nat)
    requires i < 64
    ensures B.BitOf(Num(Not(v)), i) <==> !B.BitOf(Num(v), i)
  {
    hide *;
    NotXor(v);
    LogicBits(v, ALL, i);
    AllNum();
    OnesBits(64, i);
  }

  lemma NotXor(v: bv64)
    ensures Not(v) == Xor(v, ALL)
  {
  }

  lemma AllNum()
    ensures Num(ALL) == Pow2(64) - 1
  {
    assert ALL == Not(0);
    hide Num;
    hide Not;
    hide Pow2;
    NotNum(0);
    ZeroNum(0);
    WordSize();
  }

  lemma LowMasks()
    ensures Num(0x7FFF_FFFF_FFFF_FFFF) == Pow2(63) - 1 && Num(0x7FFF_FFFF) == Pow2(31) - 1
  {
    hide *;
    Masks();
    Ones63();
    OnesNum(0x7FFF_FFFF_FFFF_FFFF, 63);
    OnesNum(0x7FFF_FFFF, 31);
  }

  lemma SignBits(dbl: bool, a: bv64, b: bv64)
    ensures Signs(if dbl then 63 else 31, Num(a), Num(b),
                  Num(SignValue(dbl, 0, a, b)), Num(SignValue(dbl, 1, a, b)), Num(SignValue(dbl, 2, a, b)))
  {
    hide Num;
    hide B.BitOf;
    hide And;
    hide Or;
    hide Not;
    hide Xor;
    hide SignValue;
    hide Pow2;
    var k := if dbl then 63 else 31;
    var low := if dbl then 0x7FFF_FFFF_FFFF_FFFF else 0x7FFF_FFFF;
    LowMasks();
    SignParts(dbl, a, b, low);
    forall i: nat | i < 64
      ensures B.BitOf(Num(Or(And(a, low), And(b, Not(low)))), i) <==> if i < k then B.BitOf(Num(a), i) else B.BitOf(Num(b), i)
      ensures B.BitOf(Num(Or(And(a, low), And(Not(b), Not(low)))), i) <==> if i < k then B.BitOf(Num(a), i) else !B.BitOf(Num(b), i)
      ensures B.BitOf(Num(Xor(a, And(b, Not(low)))), i) <==>
              if i < k then B.BitOf(Num(a), i) else B.BitOf(Num(a), i) != B.BitOf(Num(b), i)
    {
      SignBit1(a, b, low, k, i);
    }
  }

  lemma SignBit1(a: bv64, b: bv64, low: bv64, k: nat, i: nat)
    requires i < 64 && Num(low) == Pow2(k) - 1
    ensures B.BitOf(Num(Or(And(a, low), And(b, Not(low)))), i) <==> if i < k then B.BitOf(Num(a), i) else B.BitOf(Num(b), i)
    ensures B.BitOf(Num(Or(And(a, low), And(Not(b), Not(low)))), i) <==> if i < k then B.BitOf(Num(a), i) else !B.BitOf(Num(b), i)
    ensures B.BitOf(Num(Xor(a, And(b, Not(low)))), i) <==>
            if i < k then B.BitOf(Num(a), i) else B.BitOf(Num(a), i) != B.BitOf(Num(b), i)
  {
    hide *;
    OnesBits(k, i);
    NotBits(low, i);
    NotBits(b, i);
    LogicBits(a, low, i);
    LogicBits(b, Not(low), i);
    LogicBits(Not(b), Not(low), i);
    LogicBits(And(a, low), And(b, Not(low)), i);
    LogicBits(And(a, low), And(Not(b), Not(low)), i);
    LogicBits(a, And(b, Not(low)), i);
  }

  lemma SignComputed(s: State, op: FloatOp, i: bv32, env: Env, rs1: bv32, rs2: bv32)
    requires op.fn.Sign? && Rs1(i) == rs1 && Rs2(i) == rs2
    ensures var v := SignValue(op.dbl, op.fn.how, s.fp(rs1), s.fp(rs2));
      Computed(s, op, i, env) == FpOut(v, 0) && FpResult(op, v) == v
  {
    hide Rs1;
    hide Rs2;
    hide SignValue;
  }

  lemma SignGets(s: State, env: Env, m: Mnemonic, dbl: bool, how: int, rd: bv32, rs1: bv32, rs2: bv32)
    requires (m == FSgnj && how == 0) || (m == FSgnjn && how == 1) || (m == FSgnjx && how == 2)
    requires rd < 32 && rs1 < 32 && rs2 < 32
    ensures FloatGets(s, FloatWord(m, dbl, 0, rd, rs1, rs2, 0), env, rd, Num(SignValue(dbl, how, s.fp(rs1), s.fp(rs2))))
  {
    hide *;
    var i, op := FloatWord(m, dbl, 0, rd, rs1, rs2, 0), FloatOp(Sign(how), dbl, how);
    SignFields(rd, rs1, rs2);
    Decodes(s.unit.frm, m, dbl, 0, rd, rs1, rs2, 0);
    SignDecoded(s.unit.frm, m, dbl, how, rd, rs1, rs2);
    SignComputed(s, op, i, env, rs1, rs2);
    SilentGets(s, i, env, op, rd, SignValue(dbl, how, s.fp(rs1), s.fp(rs2)));
  }

  lemma SignFields(rd: bv32, rs1: bv32, rs2: bv32)
    requires rd < 32 && rs1 < 32 && rs2 < 32
    ensures Fields(0, rd, rs1, rs2, 0)
  {
  }

  lemma SignDecoded(frm: nat, m: Mnemonic, dbl: bool, how: int, rd: bv32, rs1: bv32, rs2: bv32)
    requires Decoded(frm, m, dbl, 0, rd, rs1, rs2, 0)
    requires (m == FSgnj && how == 0) || (m == FSgnjn && how == 1) || (m == FSgnjx && how == 2)
    ensures var i := FloatWord(m, dbl, 0, rd, rs1, rs2, 0);
      && FloatOf(frm, i) == ToFp(FloatOp(Sign(how), dbl, how), true)
      && Rd(i) == rd && Rs1(i) == rs1 && Rs2(i) == rs2 && Opcode(i) in {0x43, 0x47, 0x4B, 0x4F, 0x53}
  {
    hide FloatOf;
    hide FloatWord;
    hide Opcode;
    hide Rd;
    hide Rs1;
    hide Rs2;
    hide Third;
  }

  /** The sign injections. A double's sign is its top bit; in the single format all bits from 31 on
      are treated as one. */
  lemma Injections(s: State, env: Env, dbl: bool, rd: bv32, rs1: bv32, rs2: bv32) returns (copied: nat, negated: nat, product: nat)
    requires rd < 32 && rs1 < 32 && rs2 < 32
    ensures Signs(if dbl then 63 else 31, Num(s.fp(rs1)), Num(s.fp(rs2)), copied, negated, product)
    ensures FloatGets(s, FloatWord(FSgnj, dbl, 0, rd, rs1, rs2, 0), env, rd, copied)
    ensures FloatGets(s, FloatWord(FSgnjn, dbl, 0, rd, rs1, rs2, 0), env, rd, negated)
    ensures FloatGets(s, FloatWord(FSgnjx, dbl, 0, rd, rs1, rs2, 0), env, rd, product)
  {
    hide *;
    var a, b := s.fp(rs1), s.fp(rs2);
    copied, negated, product := Num(SignValue(dbl, 0, a, b)), Num(SignValue(dbl, 1, a, b)), Num(SignValue(dbl, 2, a, b));
    SignBits(dbl, a, b);
    SignGets(s, env, FSgnj, dbl, 0, rd, rs1, rs2);
    SignGets(s, env, FSgnjn, dbl, 1, rd, rs1, rs2);
    SignGets(s, env, FSgnjx, dbl, 2, rd, rs1, rs2);
  }

  // ---------- moves ----------

  lemma MoveComputed(s: State, op: FloatOp, i: bv32, env: Env, rs1: bv32)
    requires (op.fn.MoveIn? || op.fn.MoveOut?) && Rs1(i) == rs1
    ensures var w := if op.fn.MoveIn? then s.x(rs1) else s.fp(rs1);
      var v := if op.dbl then w else Word(w);
      Computed(s, op, i, env) == FpOut(v, 0) && (op.fn.MoveIn? ==> FpResult(op, v) == v)
  {
    hide Rs1;
    hide Word;
  }

  /** The number a move transfers: all of a register, or its low half with the sign extended. */
  function Moved(dbl: bool, n: nat): nat {
    if dbl then n else Extend(n, 32)
  }

  lemma MovedNum(dbl: bool, w: bv64)
    ensures Num(if dbl then w else Word(w)) == Moved(dbl, Num(w))
  {
    hide Num;
    hide Word;
    hide Extend;
    WordNum(w);
  }

  lemma MovesOut(s: State, env: Env, dbl: bool, rd: bv32, rs1: bv32)
    requires rd < 32 && rs1 < 32 && s.unit.fs != 0
    ensures Gives(s, FloatWord(FMvX, dbl, 0, rd, rs1, 0, 0), env, rd, Moved(dbl, Num(s.fp(rs1))))
  {
    hide Opcode;
    hide Rd;
    hide Rs1;
    hide Rs2;
    hide Third;
    hide FloatOf;
    hide FloatWord;
    hide FloatGets;
    hide Gives;
    hide Num;
    hide Word;
    hide Moved;
    hide Computed;
    hide FpResult;
    var i, op, v := FloatWord(FMvX, dbl, 0, rd, rs1, 0, 0), FloatOp(MoveOut, dbl, 0), if dbl then s.fp(rs1) else Word(s.fp(rs1));
    Decodes(s.unit.frm, FMvX, dbl, 0, rd, rs1, 0, 0);
    MoveComputed(s, op, i, env, rs1);
    MovedNum(dbl, s.fp(rs1));
    SilentGives(s, i, env, op, rd, v);
  }

  lemma MovesIn(s: State, env: Env, dbl: bool, rd: bv32, rs1: bv32)
    requires rd < 32 && rs1 < 32
    ensures FloatGets(s, FloatWord(FMvF, dbl, 0, rd, rs1, 0, 0), env, rd, Moved(dbl, Num(s.x(rs1))))
  {
    hide Opcode;
    hide Rd;
    hide Rs1;
    hide Rs2;
    hide Third;
    hide FloatOf;
    hide FloatWord;
    hide FloatGets;
    hide Gives;
    hide Num;
    hide Word;
    hide Moved;
    hide Computed;
    hide FpResult;
    var i, op, v := FloatWord(FMvF, dbl, 0, rd, rs1, 0, 0), FloatOp(MoveIn, dbl, 0), if dbl then s.x(rs1) else Word(s.x(rs1));
    Decodes(s.unit.frm, FMvF, dbl, 0, rd, rs1, 0, 0);
    MoveComputed(s, op, i, env, rs1);
    MovedNum(dbl, s.x(rs1));
    SilentGets(s, i, env, op, rd, v);
  }

  lemma MoveFields(rd: bv32, rs1: bv32)
    requires rd < 32 && rs1 < 32
    ensures Fields(0, rd, rs1, 0, 0)
  {
  }

  /** fmv.x.w, fmv.x.d, fmv.w.x and fmv.d.x. */
  lemma Moves(s: State, env: Env, dbl: bool, rd: bv32, rs1: bv32)
    requires rd < 32 && rs1 < 32
    ensures var i := FloatWord(FMvX, dbl, 0, rd, rs1, 0, 0);
      NeedsUnit(s, i, env) && (s.unit.fs != 0 ==> Gives(s, i, env, rd, Moved(dbl, Num(s.fp(rs1)))))
    ensures FloatGets(s, FloatWord(FMvF, dbl, 0, rd, rs1, 0, 0), env, rd, Moved(dbl, Num(s.x(rs1))))
  {
    hide *;
    var i := FloatWord(FMvX, dbl, 0, rd, rs1, 0, 0);
    if s.unit.fs != 0 {
      MovesOut(s, env, dbl, rd, rs1);
    }
    MoveFields(rd, rs1);
    UnitOff(s, FMvX, dbl, 0, rd, rs1, 0, 0, env);
    MovesIn(s, env, dbl, rd, rs1);
  }

  /** Without the unit every floating-point instruction is refused. */
  lemma UnitOff(s: State, m: Mnemonic, dbl: bool, r: bv32, rd: bv32, rs1: bv32, rs2: bv32, rs3: bv32, env: Env)
    requires Fields(r, rd, rs1, rs2, rs3)
    ensures NeedsUnit(s, FloatWord(m, dbl, r, rd, rs1, rs2, rs3), env)
  {
    hide Opcode;
    hide FloatWord;
    hide FloatOf;
    hide Operands;
    hide FloatPerform;
    hide Executed;
    Decodes(s.unit.frm, m, dbl, r, rd, rs1, rs2, rs3);
    FloatRuns(s, FloatWord(m, dbl, r, rd, rs1, rs2, rs3), env);
  }

  // ---------- a mode field of 7 ----------

  lemma FrmSelects(frm: nat, f7: bv32, second: bv32, f3: bv32)
    requires f7 & 0x7E in {0x10, 0x14, 0x50, 0x70} && f3 < 5 && frm == RoundingOf(f3, 0)
    ensures NormalOf(InstRm(frm, 7), f7, second, 7) == NormalOf(InstRm(frm, f3), f7, second, f3)
  {
    ModeIs(f3, frm);
  }

  lemma SelectedFamily(m: Mnemonic, dbl: bool) returns (f7: bv32)
    requires m in {FSgnj, FMin, FLe, FMvX}
    ensures Layout(Coded(m, dbl), f7, 0, 0) && f7 & 0x7E in {0x10, 0x14, 0x50, 0x70}
  {
    f7 := match m
      case FSgnj => if dbl then 0x11 else 0x10
      case FMin => if dbl then 0x15 else 0x14
      case FLe => if dbl then 0x51 else 0x50
      case _ => if dbl then 0x71 else 0x70;
  }

  lemma SelectedBounds(r: bv32, rd: bv32, rs1: bv32, second: bv32)
    requires Fields(r, rd, rs1, second, 0)
    ensures Fields(7, rd, rs1, second, 0)
  {
  }

  /** Where the mode field selects the instruction the tables have no 7 in it. The code takes frm for it, so
      that the word acts as the instruction whose mode field is frm. */
  lemma DynamicSelects(frm: nat, m: Mnemonic, dbl: bool, r: bv32, rd: bv32, rs1: bv32, second: bv32)
    requires m in {FSgnj, FMin, FLe, FMvX} && Fields(r, rd, rs1, second, 0) && r < 5 && frm == RoundingOf(r, 0)
    ensures FloatOf(frm, Assemble(Coded(m, dbl), 7, rd, rs1, second, 0)) == FloatOf(frm, Assemble(Coded(m, dbl), r, rd, rs1, second, 0))
  {
    hide *;
    var code := Coded(m, dbl);
    var f7 := SelectedFamily(m, dbl);
    SelectedBounds(r, rd, rs1, second);
    NormalFields(code, f7, 0, 0, 7, rd, rs1, second);
    NormalFields(code, f7, 0, 0, r, rd, rs1, second);
    ByFields(frm, Assemble(code, 7, rd, rs1, second, 0));
    ByFields(frm, Assemble(code, r, rd, rs1, second, 0));
    FrmSelects(frm, f7, if second == 0 then 0 else second, r);
  }
}
