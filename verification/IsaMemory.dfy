/** Loads, stores and atomic instructions (instructions.c:918-1060, 1118-1163, 1991-2174). */
module IsaMemory {
  import opened Bits
  import opened Words
  import opened Rvc
  import opened RvcDecode
  import opened Core
  import opened Numbers
  import opened Shifts
  import opened Isa

  // ---------- outcomes ----------

  /** The instruction accesses `size` bytes at `addr` first. */
  predicate Accesses(s: State, word: bv32, addr: int, size: nat) {
    var a := ActOf(s, Fetched(word));
    && (a.Load? || a.LoadFp? || a.Store? || a.StoreFp? || a.LoadReserved? || a.StoreConditional? || a.Atomic?)
    && Num(a.addr) == addr && a.size == size
  }

  /** The exception of a faulting access: only the pending trap value changes. */
  ghost predicate Faults(s: State, r: Result, reply: Reply) {
    reply.Faulted? && r.Raised? && r.cause == reply.cause && r.state == s.(tval := reply.addr)
  }

  /** `size` bytes are stored at `addr`, `n` being the number they hold. */
  ghost predicate Puts(r: Result, addr: int, size: nat, n: int) {
    && r.Retired? && r.stored.Some?
    && Num(r.stored.value.addr) == addr && r.stored.value.size == size
    && Num(r.stored.value.value) % Pow2(8 * size) == n
  }

  /** Registers and pc after a memory instruction: `rd` gets `n`. */
  ghost predicate Leaves(s: State, r: Result, rd: bv32, n: int) {
    && r.Retired? && r.state == s.(x := r.state.x, pc := r.state.pc) && Num(r.state.pc) == After(s)
    && (forall k :: k != rd ==> r.state.x(k) == s.x(k))
    && (if rd == 0 then r.state.x(0) == s.x(0) else Num(r.state.x(rd)) == n)
  }

  // ---------- loaded values ----------

  lemma ByteParts(v: bv64)
    ensures v & 0x80 != 0 <==> !Below(And(v, ONES8), 0x80)
  {
  }

  lemma ByteNegative(v: bv64)
    requires v & 0x80 != 0
    ensures Extended(1, true, v) == Plus(And(v, ONES8), Not(ONES8))
  {
    hide *;
    ByteOred(v);
    ByteSum(v);
    ByteAbove(v);
  }

  lemma ByteOred(v: bv64)
    requires v & 0x80 != 0
    ensures Extended(1, true, v) == v | !0xFF
  {
  }

  lemma ByteSum(v: bv64)
    ensures Plus(And(v, ONES8), Not(ONES8)) == (v & 0xFF) + !0xFF
  {
    assert Plus(v & 0xFF, !0xFF) == (v & 0xFF) + !0xFF;
  }

  lemma ByteAbove(v: bv64)
    ensures v | !0xFF == (v & 0xFF) + !0xFF
  {
  }

  lemma BytePositive(v: bv64)
    requires v & 0x80 == 0
    ensures Extended(1, true, v) == And(v, ONES8)
  {
  }

  lemma HalfParts(v: bv64)
    ensures v & 0x8000 != 0 <==> !Below(And(v, ONES16), 0x8000)
  {
  }

  lemma HalfNegative(v: bv64)
    requires v & 0x8000 != 0
    ensures Extended(2, true, v) == Plus(And(v, ONES16), Not(ONES16))
  {
    hide *;
    HalfOred(v);
    HalfSum(v);
    HalfAbove(v);
  }

  lemma HalfOred(v: bv64)
    requires v & 0x8000 != 0
    ensures Extended(2, true, v) == v | !0xFFFF
  {
  }

  lemma HalfSum(v: bv64)
    ensures Plus(And(v, ONES16), Not(ONES16)) == (v & 0xFFFF) + !0xFFFF
  {
    assert Plus(v & 0xFFFF, !0xFFFF) == (v & 0xFFFF) + !0xFFFF;
  }

  lemma HalfAbove(v: bv64)
    ensures v | !0xFFFF == (v & 0xFFFF) + !0xFFFF
  {
  }

  lemma HalfPositive(v: bv64)
    requires v & 0x8000 == 0
    ensures Extended(2, true, v) == And(v, ONES16)
  {
  }

  lemma WordNegative(v: bv64)
    requires v & 0x8000_0000 != 0
    ensures Extended(4, true, v) == Plus(And(v, ONES32), Not(ONES32))
  {
    hide *;
    WordOred(v);
    WordSum(v);
    WordAbove(v);
  }

  lemma WordOred(v: bv64)
    requires v & 0x8000_0000 != 0
    ensures Extended(4, true, v) == v | !0xFFFF_FFFF
  {
  }

  lemma WordSum(v: bv64)
    ensures Plus(And(v, ONES32), Not(ONES32)) == (v & 0xFFFF_FFFF) + !0xFFFF_FFFF
  {
    assert Plus(v & 0xFFFF_FFFF, !0xFFFF_FFFF) == (v & 0xFFFF_FFFF) + !0xFFFF_FFFF;
  }

  lemma WordAbove(v: bv64)
    ensures v | !0xFFFF_FFFF == (v & 0xFFFF_FFFF) + !0xFFFF_FFFF
  {
  }

  lemma WordPositive(v: bv64)
    requires v & 0x8000_0000 == 0
    ensures Extended(4, true, v) == And(v, ONES32)
  {
  }

  lemma UnsignedParts(v: bv64)
    ensures Extended(1, false, v) == And(v, ONES8)
    ensures Extended(2, false, v) == And(v, ONES16)
    ensures Extended(4, false, v) == And(v, ONES32)
  {
  }

  /** The low bytes of a loaded value as a signed number. */
  lemma SignedLoad(v: bv64)
    ensures Num(Extended(1, true, v)) == Extend(Num(v), 8)
    ensures Num(Extended(2, true, v)) == Extend(Num(v), 16)
    ensures Num(Extended(4, true, v)) == Extend(Num(v), 32)
  {
    hide *;
    Masks();
    Powers();
    ByteParts(v);
    SignBitNum(v, ONES8, 0x80, 8, v & 0x80 != 0);
    if v & 0x80 != 0 { ByteNegative(v); } else { BytePositive(v); }
    HalfParts(v);
    SignBitNum(v, ONES16, 0x8000, 16, v & 0x8000 != 0);
    if v & 0x8000 != 0 { HalfNegative(v); } else { HalfPositive(v); }
    WordSign(v);
    SignBitNum(v, ONES32, 0x8000_0000, 32, v & 0x8000_0000 != 0);
    if v & 0x8000_0000 != 0 { WordNegative(v); } else { WordPositive(v); }
  }

  /** And as an unsigned one. */
  lemma UnsignedLoad(v: bv64)
    ensures Num(Extended(1, false, v)) == Num(v) % Pow2(8)
    ensures Num(Extended(2, false, v)) == Num(v) % Pow2(16)
    ensures Num(Extended(4, false, v)) == Num(v) % Pow2(32)
  {
    hide *;
    Masks();
    UnsignedParts(v);
    MaskNum(v, ONES8, 8);
    MaskNum(v, ONES16, 16);
    MaskNum(v, ONES32, 32);
  }

  // ---------- loads ----------

  lemma LoadCodes()
    ensures Code(0x0003, 0x03, 0, 0) && Code(0x1003, 0x03, 1, 0) && Code(0x2003, 0x03, 2, 0) && Code(0x3003, 0x03, 3, 0)
    ensures Code(0x4003, 0x03, 4, 0) && Code(0x5003, 0x03, 5, 0) && Code(0x6003, 0x03, 6, 0)
  {
  }

  lemma LoadActs(x: Regs, rd: bv32, rs1: bv32, imm: bv64)
    ensures var addr := Plus(x(rs1), imm);
      && LoadAct(x, 0, rd, rs1, imm) == Load(rd, addr, 1, true) && LoadAct(x, 1, rd, rs1, imm) == Load(rd, addr, 2, true)
      && LoadAct(x, 2, rd, rs1, imm) == Load(rd, addr, 4, true) && LoadAct(x, 3, rd, rs1, imm) == Load(rd, addr, 8, true)
      && LoadAct(x, 4, rd, rs1, imm) == Load(rd, addr, 1, false) && LoadAct(x, 5, rd, rs1, imm) == Load(rd, addr, 2, false)
      && LoadAct(x, 6, rd, rs1, imm) == Load(rd, addr, 4, false)
  {
    hide Plus;
  }

  /** A load reads `size` bytes at `addr`; if that succeeds, `rd` gets `n`. */
  ghost predicate Loads(s: State, word: bv32, env: Env, rd: bv32, addr: int, size: nat, n: int) {
    Accesses(s, word, addr, size) && (env.first.Done? ==> Wrote(s, Executed(s, word, env), rd, n, After(s)))
  }

  lemma ByLoad(s: State, env: Env, code: bv32, f3: bv32, rd: bv32, rs1: bv32, imm: bv32, size: nat, signed: bool, n: int)
    requires Code(code, 0x03, f3, 0) && rd < 32 && rs1 < 32
    requires LoadAct(s.x, f3, rd, rs1, Sx(Ext(imm, 12))) == Load(rd, Plus(s.x(rs1), Sx(Ext(imm, 12))), size, signed)
    requires env.first.Done? ==> n == Num(Extended(size, signed, env.first.value))
    ensures Loads(s, IType(code, rd, rs1, imm), env, rd, (Num(s.x(rs1)) + Extend(Field(imm), 12)) % WORD, size, n)
  {
    hide *;
    var word, addr := IType(code, rd, rs1, imm), Plus(s.x(rs1), Sx(Ext(imm, 12)));
    ImmediateWord(s, code, 0x03, f3, rd, rs1, imm);
    LoadDone(s, word, env, rd, addr, size, signed, n);
    PlusNum(s.x(rs1), Sx(Ext(imm, 12)));
    Imm12Num(imm);
  }

  lemma LoadDone(s: State, word: bv32, env: Env, rd: bv32, addr: bv64, size: nat, signed: bool, n: int)
    requires Acts(s, word, Load(rd, addr, size, signed))
    requires env.first.Done? ==> n == Num(Extended(size, signed, env.first.value))
    ensures Loads(s, word, env, rd, Num(addr), size, n)
  {
    hide BaseAct;
    hide Num;
    hide Quadrant;
    hide Extended;
    NextPc(s.pc);
    hide Plus;
    assert Executed(s, word, env) == Perform(s, Load(rd, addr, size, signed), word, 4, env);
  }

  /** The number the first access reads. */
  function Read(env: Env): nat {
    if env.first.Done? then Num(env.first.value) else 0
  }

  /** lb, lh, lw, ld, lbu, lhu and lwu: the signed or unsigned number of the low bytes read. */
  lemma Loading(s: State, env: Env, rd: bv32, rs1: bv32, imm: bv32)
    requires rd < 32 && rs1 < 32
    ensures var addr, v := (Num(s.x(rs1)) + Extend(Field(imm), 12)) % WORD, Read(env);
      && Loads(s, IType(0x0003, rd, rs1, imm), env, rd, addr, 1, Extend(v, 8))
      && Loads(s, IType(0x1003, rd, rs1, imm), env, rd, addr, 2, Extend(v, 16))
      && Loads(s, IType(0x2003, rd, rs1, imm), env, rd, addr, 4, Extend(v, 32))
      && Loads(s, IType(0x3003, rd, rs1, imm), env, rd, addr, 8, v)
      && Loads(s, IType(0x4003, rd, rs1, imm), env, rd, addr, 1, v % Pow2(8))
      && Loads(s, IType(0x5003, rd, rs1, imm), env, rd, addr, 2, v % Pow2(16))
      && Loads(s, IType(0x6003, rd, rs1, imm), env, rd, addr, 4, v % Pow2(32))
  {
    var v := Read(env);
    hide *;
    LoadCodes();
    LoadActs(s.x, rd, rs1, Sx(Ext(imm, 12)));
    ReadIs(env);
    ByLoad(s, env, 0x0003, 0, rd, rs1, imm, 1, true, Extend(v, 8));
    ByLoad(s, env, 0x1003, 1, rd, rs1, imm, 2, true, Extend(v, 16));
    ByLoad(s, env, 0x2003, 2, rd, rs1, imm, 4, true, Extend(v, 32));
    ByLoad(s, env, 0x3003, 3, rd, rs1, imm, 8, true, v);
    ByLoad(s, env, 0x4003, 4, rd, rs1, imm, 1, false, v % Pow2(8));
    ByLoad(s, env, 0x5003, 5, rd, rs1, imm, 2, false, v % Pow2(16));
    ByLoad(s, env, 0x6003, 6, rd, rs1, imm, 4, false, v % Pow2(32));
  }

  lemma ReadIs(env: Env)
    ensures var v := Read(env);
      env.first.Done? ==> var w := env.first.value;
        && Num(Extended(1, true, w)) == Extend(v, 8) && Num(Extended(2, true, w)) == Extend(v, 16)
        && Num(Extended(4, true, w)) == Extend(v, 32) && Num(Extended(8, true, w)) == v
        && Num(Extended(1, false, w)) == v % Pow2(8) && Num(Extended(2, false, w)) == v % Pow2(16)
        && Num(Extended(4, false, w)) == v % Pow2(32)
  {
    if env.first.Done? {
      SignedLoad(env.first.value);
      UnsignedLoad(env.first.value);
      WholeLoad(env.first.value);
    }
    hide Extended;
    hide Num;
    hide Extend;
    hide Pow2;
  }

  lemma WholeLoad(v: bv64)
    ensures Extended(8, true, v) == v
  {
  }

  /** A faulting first access of a load, store, load-reserved or atomic is the instruction's exception. */
  lemma AccessFaults(s: State, word: bv32, env: Env, addr: int, size: nat)
    requires Accesses(s, word, addr, size) && env.first.Faulted? && !ActOf(s, Fetched(word)).StoreConditional?
    ensures Faults(s, Executed(s, word, env), env.first)
  {
    hide ActOf;
    hide Fetched;
    hide Num;
    hide Plus;
    hide Length;
    hide Extended;
    hide AtomicValue;
  }

  // ---------- stores ----------

  lemma STypeFields(code: bv32, op: bv32, f3: bv32, rs1: bv32, rs2: bv32, imm: bv32)
    requires Code(code, op, f3, 0) && rs1 < 32 && rs2 < 32
    ensures var i := SType(code, rs1, rs2, imm); Opcode(i) == op && Funct3(i) == f3 && Rs1(i) == rs1 && Rs2(i) == rs2
  {
  }

  lemma STypeNegative(code: bv32, rs1: bv32, rs2: bv32, imm: bv32)
    requires code < 0x8000 && code & 0xF80 == 0 && rs1 < 32 && rs2 < 32 && imm & 0x800 != 0
    ensures ImmS(SType(code, rs1, rs2, imm)) == imm | 0xFFFF_F000
  {
  }

  lemma STypePositive(code: bv32, rs1: bv32, rs2: bv32, imm: bv32)
    requires code < 0x8000 && code & 0xF80 == 0 && rs1 < 32 && rs2 < 32 && imm & 0x800 == 0
    ensures ImmS(SType(code, rs1, rs2, imm)) == imm & 0xFFF
  {
  }

  lemma STypeImm(code: bv32, op: bv32, f3: bv32, rs1: bv32, rs2: bv32, imm: bv32)
    requires Code(code, op, f3, 0) && rs1 < 32 && rs2 < 32
    ensures ImmS(SType(code, rs1, rs2, imm)) == Ext(imm, 12)
  {
    hide Sra;
    hide SType;
    hide ImmS;
    Ext12(imm);
    if imm & 0x800 != 0 {
      Sra12Negative(imm);
      STypeNegative(code, rs1, rs2, imm);
    } else {
      Sra12Positive(imm);
      STypePositive(code, rs1, rs2, imm);
    }
    hide Ext;
  }

  lemma StoreWord(s: State, code: bv32, f3: bv32, rs1: bv32, rs2: bv32, imm: bv32)
    requires Code(code, 0x23, f3, 0) && rs1 < 32 && rs2 < 32
    ensures Acts(s, SType(code, rs1, rs2, imm), StoreAct(s.x, f3, rs1, rs2, Sx(Ext(imm, 12))))
  {
    hide *;
    var i := SType(code, rs1, rs2, imm);
    STypeFields(code, 0x23, f3, rs1, rs2, imm);
    STypeImm(code, 0x23, f3, rs1, rs2, imm);
    FullSize(i);
    StoreIs(s, i);
  }

  lemma StoreIs(s: State, i: bv32)
    requires Opcode(i) == 0x23 && Quadrant(i) == 3
    ensures Acts(s, i, StoreAct(s.x, Funct3(i), Rs1(i), Rs2(i), Sx(ImmS(i))))
  {
    Dispatch(s.x, s.pc, s.unit.fs != 0, i, 0x23);
    hide BaseAct;
    hide StoreAct;
  }

  lemma StoreCodes()
    ensures Code(0x0023, 0x23, 0, 0) && Code(0x1023, 0x23, 1, 0) && Code(0x2023, 0x23, 2, 0) && Code(0x3023, 0x23, 3, 0)
  {
  }

  lemma StoreActs(x: Regs, rs1: bv32, rs2: bv32, imm: bv64)
    ensures var addr := Plus(x(rs1), imm);
      && StoreAct(x, 0, rs1, rs2, imm) == Store(addr, 1, x(rs2)) && StoreAct(x, 1, rs1, rs2, imm) == Store(addr, 2, x(rs2))
      && StoreAct(x, 2, rs1, rs2, imm) == Store(addr, 4, x(rs2)) && StoreAct(x, 3, rs1, rs2, imm) == Store(addr, 8, x(rs2))
  {
    hide Plus;
  }

  /** A store writes the low `size` bytes of the number `n` at `addr`, and nothing else changes. */
  ghost predicate Stores(s: State, word: bv32, env: Env, addr: int, size: nat, n: int) {
    var r := Executed(s, word, env);
    && Accesses(s, word, addr, size)
    && (env.first.Done? ==> Puts(r, addr, size, n % Pow2(8 * size)) && r.state == s.(pc := r.state.pc) && Num(r.state.pc) == After(s))
  }

  lemma ByStore(s: State, env: Env, code: bv32, f3: bv32, rs1: bv32, rs2: bv32, imm: bv32, size: nat)
    requires Code(code, 0x23, f3, 0) && rs1 < 32 && rs2 < 32
    requires StoreAct(s.x, f3, rs1, rs2, Sx(Ext(imm, 12))) == Store(Plus(s.x(rs1), Sx(Ext(imm, 12))), size, s.x(rs2))
    ensures Stores(s, SType(code, rs1, rs2, imm), env, (Num(s.x(rs1)) + Extend(Field(imm), 12)) % WORD, size, Num(s.x(rs2)))
  {
    hide *;
    StoreWord(s, code, f3, rs1, rs2, imm);
    StoreDone(s, SType(code, rs1, rs2, imm), env, Plus(s.x(rs1), Sx(Ext(imm, 12))), size, s.x(rs2));
    PlusNum(s.x(rs1), Sx(Ext(imm, 12)));
    Imm12Num(imm);
  }

  lemma StoreDone(s: State, word: bv32, env: Env, addr: bv64, size: nat, v: bv64)
    requires Acts(s, word, Store(addr, size, v))
    ensures Stores(s, word, env, Num(addr), size, Num(v))
  {
    hide BaseAct;
    hide Num;
    hide Quadrant;
    hide Pow2;
    NextPc(s.pc);
    hide Plus;
    assert Executed(s, word, env) == Perform(s, Store(addr, size, v), word, 4, env);
  }

  /** sb, sh, sw and sd. */
  lemma Storing(s: State, env: Env, rs1: bv32, rs2: bv32, imm: bv32)
    requires rs1 < 32 && rs2 < 32
    ensures var addr, v := (Num(s.x(rs1)) + Extend(Field(imm), 12)) % WORD, Num(s.x(rs2));
      && Stores(s, SType(0x0023, rs1, rs2, imm), env, addr, 1, v)
      && Stores(s, SType(0x1023, rs1, rs2, imm), env, addr, 2, v)
      && Stores(s, SType(0x2023, rs1, rs2, imm), env, addr, 4, v)
      && Stores(s, SType(0x3023, rs1, rs2, imm), env, addr, 8, v)
  {
    hide *;
    StoreCodes();
    StoreActs(s.x, rs1, rs2, Sx(Ext(imm, 12)));
    ByStore(s, env, 0x0023, 0, rs1, rs2, imm, 1);
    ByStore(s, env, 0x1023, 1, rs1, rs2, imm, 2);
    ByStore(s, env, 0x2023, 2, rs1, rs2, imm, 4);
    ByStore(s, env, 0x3023, 3, rs1, rs2, imm, 8);
  }

  // ---------- floating-point loads and stores ----------

  /** A number in the low half of a register whose upper half is ones. */
  function BoxedNum(n: nat): int {
    n % Pow2(32) + (WORD - Pow2(32))
  }

  lemma BoxSum(v: bv64)
    ensures Box(v) == Plus(And(v, ONES32), Not(ONES32))
  {
    hide *;
    BoxOred(v);
    WordSum(v);
    WordAbove(v);
  }

  lemma BoxOred(v: bv64)
    ensures Box(v) == v | !0xFFFF_FFFF
  {
  }

  lemma BoxNum(v: bv64)
    ensures Num(Box(v)) == BoxedNum(Num(v))
  {
    hide *;
    BoxSum(v);
    Masks();
    MaskNum(v, ONES32, 32);
    OnesNum(ONES32, 32);
    NotNum(ONES32);
    PlusNum(And(v, ONES32), Not(ONES32));
    BoxParts(Num(v), Num(Not(ONES32)));
  }

  lemma BoxParts(n: nat, ones: nat)
    requires ones == WORD - 1 - (Pow2(32) - 1)
    ensures (n % Pow2(32) + ones) % WORD == BoxedNum(n)
  {
    WordSize();
    Pow2Mono(32, 64);
    hide Pow2;
    SmallSum(n % Pow2(32), Pow2(32));
  }

  lemma SmallSum(r: int, p: nat)
    requires 0 <= r < p <= WORD
    ensures (r + (WORD - 1 - (p - 1))) % WORD == r + (WORD - p)
  {
  }

  lemma BoxedRead(env: Env)
    ensures env.first.Done? ==> Num(Box(env.first.value)) == BoxedNum(Read(env)) && Num(env.first.value) == Read(env)
  {
    if env.first.Done? {
      BoxNum(env.first.value);
    }
    hide BoxedNum;
    hide Num;
    hide Box;
  }

  /** The instruction refuses itself if the floating-point unit is off. */
  ghost predicate NeedsUnit(s: State, word: bv32, env: Env) {
    s.unit.fs == 0 ==> Refuses(s, word, env)
  }

  /** A load into floating-point register `rd`, which gets the number `n`; the unit becomes dirty. */
  ghost predicate FloatLoads(s: State, word: bv32, env: Env, rd: bv32, addr: int, size: nat, n: int) {
    var r := Executed(s, word, env);
    && NeedsUnit(s, word, env)
    && (s.unit.fs != 0 ==>
          && Accesses(s, word, addr, size)
          && (env.first.Done? ==>
                && r.Retired? && r.stored == None && Num(r.state.pc) == After(s)
                && r.state == s.(fp := r.state.fp, unit := s.unit.(fs := 3), pc := r.state.pc)
                && Num(r.state.fp(rd)) == n && (forall k :: k != rd ==> r.state.fp(k) == s.fp(k))))
  }

  /** A store of the low `size` bytes of the number in floating-point register `rs2`. */
  ghost predicate FloatStores(s: State, word: bv32, env: Env, rs2: bv32, addr: int, size: nat) {
    NeedsUnit(s, word, env) && (s.unit.fs != 0 ==> Stores(s, word, env, addr, size, Num(s.fp(rs2))))
  }

  lemma FloatMemCodes()
    ensures Code(0x2007, 0x07, 2, 0) && Code(0x3007, 0x07, 3, 0) && Code(0x2027, 0x27, 2, 0) && Code(0x3027, 0x27, 3, 0)
  {
  }

  lemma FloatLoadActs(x: Regs, fpOn: bool, rd: bv32, rs1: bv32, imm: bv64)
    ensures var addr := Plus(x(rs1), imm);
      && FpLoadAct(x, fpOn, 2, rd, rs1, imm) == (if fpOn then LoadFp(rd, addr, 4) else ILLEGAL)
      && FpLoadAct(x, fpOn, 3, rd, rs1, imm) == (if fpOn then LoadFp(rd, addr, 8) else ILLEGAL)
  {
    hide Plus;
  }

  lemma FloatStoreActs(x: Regs, fpOn: bool, rs1: bv32, rs2: bv32, imm: bv64)
    ensures var addr := Plus(x(rs1), imm);
      && FpStoreAct(x, fpOn, 2, rs1, rs2, imm) == (if fpOn then StoreFp(addr, rs2, 4) else ILLEGAL)
      && FpStoreAct(x, fpOn, 3, rs1, rs2, imm) == (if fpOn then StoreFp(addr, rs2, 8) else ILLEGAL)
  {
    hide Plus;
  }

  lemma FloatStoreIs(s: State, i: bv32)
    requires Opcode(i) == 0x27 && Quadrant(i) == 3
    ensures Acts(s, i, FpStoreAct(s.x, s.unit.fs != 0, Funct3(i), Rs1(i), Rs2(i), Sx(ImmS(i))))
  {
    Dispatch(s.x, s.pc, s.unit.fs != 0, i, 0x27);
    hide BaseAct;
    hide FpStoreAct;
  }

  lemma FloatStoreWord(s: State, code: bv32, f3: bv32, rs1: bv32, rs2: bv32, imm: bv32)
    requires Code(code, 0x27, f3, 0) && rs1 < 32 && rs2 < 32
    ensures Acts(s, SType(code, rs1, rs2, imm), FpStoreAct(s.x, s.unit.fs != 0, f3, rs1, rs2, Sx(Ext(imm, 12))))
  {
    hide *;
    var i := SType(code, rs1, rs2, imm);
    STypeFields(code, 0x27, f3, rs1, rs2, imm);
    STypeImm(code, 0x27, f3, rs1, rs2, imm);
    FullSize(i);
    FloatStoreIs(s, i);
  }

  lemma FloatLoadDone(s: State, word: bv32, env: Env, rd: bv32, addr: bv64, size: nat, n: int)
    requires Acts(s, word, if s.unit.fs != 0 then LoadFp(rd, addr, size) else ILLEGAL)
    requires env.first.Done? ==> n == Num(if size == 4 then Box(env.first.value) else env.first.value)
    ensures FloatLoads(s, word, env, rd, Num(addr), size, n)
  {
    hide BaseAct;
    hide Num;
    hide Quadrant;
    hide Box;
    NextPc(s.pc);
    hide Plus;
    assert Executed(s, word, env) == Perform(s, if s.unit.fs != 0 then LoadFp(rd, addr, size) else ILLEGAL, word, 4, env);
  }

  lemma FloatStoreDone(s: State, word: bv32, env: Env, rs2: bv32, addr: bv64, size: nat)
    requires Acts(s, word, if s.unit.fs != 0 then StoreFp(addr, rs2, size) else ILLEGAL)
    ensures FloatStores(s, word, env, rs2, Num(addr), size)
  {
    hide BaseAct;
    hide Num;
    hide Quadrant;
    hide Pow2;
    NextPc(s.pc);
    hide Plus;
    assert Executed(s, word, env) == Perform(s, if s.unit.fs != 0 then StoreFp(addr, rs2, size) else ILLEGAL, word, 4, env);
  }

  /** flw and fld: a single goes into a box, a double fills the register. */
  lemma FloatLoading(s: State, env: Env, rd: bv32, rs1: bv32, imm: bv32)
    requires rd < 32 && rs1 < 32
    ensures var addr, v := (Num(s.x(rs1)) + Extend(Field(imm), 12)) % WORD, Read(env);
      && FloatLoads(s, IType(0x2007, rd, rs1, imm), env, rd, addr, 4, BoxedNum(v))
      && FloatLoads(s, IType(0x3007, rd, rs1, imm), env, rd, addr, 8, v)
  {
    hide *;
    var v := Read(env);
    BoxedRead(env);
    FloatMemCodes();
    var off := Sx(Ext(imm, 12));
    FloatLoadActs(s.x, s.unit.fs != 0, rd, rs1, off);
    ImmediateWord(s, 0x2007, 0x07, 2, rd, rs1, imm);
    ImmediateWord(s, 0x3007, 0x07, 3, rd, rs1, imm);
    FloatLoadDone(s, IType(0x2007, rd, rs1, imm), env, rd, Plus(s.x(rs1), off), 4, BoxedNum(v));
    FloatLoadDone(s, IType(0x3007, rd, rs1, imm), env, rd, Plus(s.x(rs1), off), 8, v);
    PlusNum(s.x(rs1), off);
    Imm12Num(imm);
  }

  /** fsw and fsd. */
  lemma FloatStoring(s: State, env: Env, rs1: bv32, rs2: bv32, imm: bv32)
    requires rs1 < 32 && rs2 < 32
    ensures var addr := (Num(s.x(rs1)) + Extend(Field(imm), 12)) % WORD;
      && FloatStores(s, SType(0x2027, rs1, rs2, imm), env, rs2, addr, 4)
      && FloatStores(s, SType(0x3027, rs1, rs2, imm), env, rs2, addr, 8)
  {
    hide *;
    FloatMemCodes();
    var off := Sx(Ext(imm, 12));
    FloatStoreActs(s.x, s.unit.fs != 0, rs1, rs2, off);
    FloatStoreWord(s, 0x2027, 2, rs1, rs2, imm);
    FloatStoreWord(s, 0x3027, 3, rs1, rs2, imm);
    FloatStoreDone(s, SType(0x2027, rs1, rs2, imm), env, rs2, Plus(s.x(rs1), off), 4);
    FloatStoreDone(s, SType(0x3027, rs1, rs2, imm), env, rs2, Plus(s.x(rs1), off), 8);
    PlusNum(s.x(rs1), off);
    Imm12Num(imm);
  }
}
