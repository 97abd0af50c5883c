/** The atomic instructions over numbers (instructions.c:1991-2174). */
module IsaAtomic {
  import opened Bits
  import B = BitSets
  import opened Words
  import opened Rvc
  import opened RvcDecode
  import opened Core
  import opened Numbers
  import opened Shifts
  import opened Isa
  import opened IsaMemory

  // ---------- the words ----------

  /** `order` has the acquire and release bits, which make no difference. */
  function AmoWord(code: bv32, order: bv32, rd: bv32, rs1: bv32, rs2: bv32): bv32 {
    RType(code | (order << 25), rd, rs1, rs2)
  }

  predicate AmoCode(code: bv32, op: bv32, f3: bv32) {
    op < 32 && f3 < 8 && code == (op << 27) | (f3 << 12) | 0x2F
  }

  lemma AmoFields(code: bv32, op: bv32, f3: bv32, order: bv32, rd: bv32, rs1: bv32, rs2: bv32)
    requires AmoCode(code, op, f3) && order < 4 && rd < 32 && rs1 < 32 && rs2 < 32
    ensures var i := AmoWord(code, order, rd, rs1, rs2);
      Opcode(i) == 0x2F && Funct3(i) == f3 && i >> 27 == op && Rd(i) == rd && Rs1(i) == rs1 && Rs2(i) == rs2
  {
  }

  lemma AtomicIs(s: State, i: bv32)
    requires Opcode(i) == 0x2F && Quadrant(i) == 3
    ensures Acts(s, i, AtomicAct(s.x, i))
  {
    hide Opcode;
    hide AtomicAct;
  }

  lemma AtomicShape(x: Regs, i: bv32, op: bv32, size: nat)
    requires i >> 27 == op && op in {0, 1, 4, 8, 0xC, 0x10, 0x14, 0x18, 0x1C}
    requires (Funct3(i) == 2 && size == 4) || (Funct3(i) == 3 && size == 8)
    ensures AtomicAct(x, i) == Atomic(op, Rd(i), x(Rs1(i)), size, x(Rs2(i)))
  {
    hide Funct3;
    hide Rd;
    hide Rs1;
    hide Rs2;
  }

  lemma AmoActs(s: State, code: bv32, op: bv32, f3: bv32, order: bv32, rd: bv32, rs1: bv32, rs2: bv32, size: nat)
    requires AmoCode(code, op, f3) && order < 4 && rd < 32 && rs1 < 32 && rs2 < 32
    requires op in {0, 1, 4, 8, 0xC, 0x10, 0x14, 0x18, 0x1C} && ((f3 == 2 && size == 4) || (f3 == 3 && size == 8))
    ensures Acts(s, AmoWord(code, order, rd, rs1, rs2), Atomic(op, rd, s.x(rs1), size, s.x(rs2)))
  {
    hide *;
    var i := AmoWord(code, order, rd, rs1, rs2);
    AmoFields(code, op, f3, order, rd, rs1, rs2);
    FullSize(i);
    AtomicIs(s, i);
    AtomicShape(s.x, i, op, size);
  }

  // ---------- outcomes ----------

  /** An atomic instruction reads `size` bytes at `addr`, writes the number `n` there and then gives
      `rd` the number `old`. A fault at the write leaves everything as it was. */
  ghost predicate Updates(s: State, word: bv32, env: Env, rd: bv32, addr: int, size: nat, before: int, n: int) {
    var r := Executed(s, word, env);
    && Accesses(s, word, addr, size)
    && (env.first.Done? && env.second.Done? ==> Puts(r, addr, size, n) && Leaves(s, r, rd, before))
    && (env.first.Done? && env.second.Faulted? ==> Faults(s, r, env.second))
  }

  lemma AtomicAccesses(s: State, word: bv32, op: bv32, rd: bv32, addr: bv64, size: nat, v: bv64)
    requires Acts(s, word, Atomic(op, rd, addr, size, v))
    ensures Accesses(s, word, Num(addr), size)
  {
    hide BaseAct;
    hide Num;
    hide Quadrant;
  }

  lemma AtomicRuns(s: State, word: bv32, env: Env, op: bv32, rd: bv32, addr: bv64, size: nat, v: bv64)
    requires Acts(s, word, Atomic(op, rd, addr, size, v))
    ensures Executed(s, word, env) == Perform(s, Atomic(op, rd, addr, size, v), word, 4, env)
  {
    hide BaseAct;
    hide Quadrant;
    hide Perform;
  }

  lemma AtomicDone(s: State, word: bv32, env: Env, op: bv32, rd: bv32, addr: bv64, size: nat, v: bv64, before: int, n: int)
    requires Acts(s, word, Atomic(op, rd, addr, size, v))
    requires env.first.Done? ==> var was := Extended(size, true, env.first.value);
      Num(was) == before && Num(AtomicValue(op, size, was, v)) % Pow2(8 * size) == n
    ensures Updates(s, word, env, rd, Num(addr), size, before, n)
  {
    hide Acts;
    hide Accesses;
    hide Executed;
    hide Num;
    hide Pow2;
    hide Extended;
    hide AtomicValue;
    NextPc(s.pc);
    hide Plus;
    AtomicAccesses(s, word, op, rd, addr, size, v);
    AtomicRuns(s, word, env, op, rd, addr, size, v);
  }

  // ---------- values ----------

  lemma FullValues(w: bv64, was: bv64, v: bv64)
    ensures AtomicFull(1, w, was, v) == v && AtomicFull(0, w, was, v) == Plus(was, v)
    ensures AtomicFull(4, w, was, v) == Xor(was, v) && AtomicFull(8, w, was, v) == Or(was, v)
    ensures AtomicFull(0x10, w, was, v) == if Less(was, w) then was else v
    ensures AtomicFull(0x14, w, was, v) == if Less(w, was) then was else v
  {
    hide Plus;
    hide Less;
    hide And64;
  }

  lemma FullValuesMore(w: bv64, was: bv64, v: bv64)
    ensures AtomicFull(0xC, w, was, v) == And(was, v)
    ensures AtomicFull(0x18, w, was, v) == if Below(was, w) then was else v
    ensures AtomicFull(0x1C, w, was, v) == if Below(w, was) then was else v
  {
    AndIs(was, v);
    hide Plus;
    hide Less;
    hide And64;
    hide And;
  }

  /** The numbers of the nine operations, `a` the value read and `b` the operand. `bits` is the
      width they are seen at. */
  ghost predicate Values(bits: nat, a: nat, b: nat, swap: nat, sum: nat, xor: nat, and: nat, or: nat,
                         min: nat, max: nat, minu: nat, maxu: nat)
    requires bits >= 1
  {
    var m, h := Pow2(bits), Pow2(bits - 1);
    && swap == b % m && sum == (a + b) % m
    && (forall i: nat :: i < bits ==> (B.BitOf(xor, i) <==> B.BitOf(a, i) != B.BitOf(b, i)))
    && (forall i: nat :: i < bits ==> (B.BitOf(and, i) <==> B.BitOf(a, i) && B.BitOf(b, i)))
    && (forall i: nat :: i < bits ==> (B.BitOf(or, i) <==> B.BitOf(a, i) || B.BitOf(b, i)))
    && min == (if Signed(a % m, h) < Signed(b % m, h) then a % m else b % m)
    && max == (if Signed(a % m, h) > Signed(b % m, h) then a % m else b % m)
    && minu == (if a % m < b % m then a % m else b % m)
    && maxu == (if a % m > b % m then a % m else b % m)
  }

  /** What the first access answers; its value is of no interest if it faults. */
  function Answer(env: Env): bv64 {
    if env.first.Done? then env.first.value else 0
  }

  lemma AnswerNum(env: Env)
    ensures Num(Answer(env)) == Read(env)
  {
    ZeroNum(0);
    hide Num;
  }

  /** The number stored for an operation on the answer `r` and the operand `v`. */
  function Result(op: bv32, size: nat, r: bv64, v: bv64): nat {
    Num(AtomicValue(op, size, Extended(size, true, r), v)) % Pow2(8 * size)
  }

  lemma ByAtomic(s: State, env: Env, code: bv32, op: bv32, f3: bv32, order: bv32, rd: bv32, rs1: bv32, rs2: bv32, size: nat)
    requires AmoCode(code, op, f3) && order < 4 && rd < 32 && rs1 < 32 && rs2 < 32
    requires op in {0, 1, 4, 8, 0xC, 0x10, 0x14, 0x18, 0x1C} && ((f3 == 2 && size == 4) || (f3 == 3 && size == 8))
    ensures Updates(s, AmoWord(code, order, rd, rs1, rs2), env, rd, Num(s.x(rs1)), size,
                    Extend(Read(env), 8 * size), Result(op, size, Answer(env), s.x(rs2)))
  {
    var word, before, n := AmoWord(code, order, rd, rs1, rs2), Extend(Read(env), 8 * size), Result(op, size, Answer(env), s.x(rs2));
    AmoActs(s, code, op, f3, order, rd, rs1, rs2, size);
    if env.first.Done? {
      SignedLoad(env.first.value);
      WholeLoad(env.first.value);
      ExtendWhole(Num(env.first.value));
    }
    hide Num;
    hide Extend;
    hide Extended;
    hide AtomicValue;
    hide Pow2;
    hide AmoWord;
    hide Acts;
    hide Updates;
    AtomicDone(s, word, env, op, rd, s.x(rs1), size, s.x(rs2), before, n);
  }

  lemma ExtendWhole(n: nat)
    requires n < WORD
    ensures Extend(n, 64) == n
  {
    WordSize();
    HalvePow(64);
    hide Pow2;
    ExtendMod(n, WORD / 2);
  }

  lemma Result64(op: bv32, r: bv64, v: bv64)
    ensures Result(op, 8, r, v) == Num(AtomicFull(op, v, r, v))
  {
    hide Num;
    hide AtomicFull;
    WholeLoad(r);
    hide Extended;
    WordSize();
    hide Pow2;
    ModSmall(Num(AtomicFull(op, v, r, v)), WORD);
  }

  lemma Results64(r: bv64, v: bv64)
    ensures Result(1, 8, r, v) == Num(v) && Result(0, 8, r, v) == (Num(r) + Num(v)) % WORD
    ensures Result(4, 8, r, v) == Num(Xor(r, v)) && Result(0xC, 8, r, v) == Num(And(r, v)) && Result(8, 8, r, v) == Num(Or(r, v))
    ensures Result(0x10, 8, r, v) == if Less(r, v) then Num(r) else Num(v)
    ensures Result(0x14, 8, r, v) == if Less(v, r) then Num(r) else Num(v)
    ensures Result(0x18, 8, r, v) == if Below(r, v) then Num(r) else Num(v)
    ensures Result(0x1C, 8, r, v) == if Below(v, r) then Num(r) else Num(v)
  {
    hide *;
    FullValues(v, r, v);
    FullValuesMore(v, r, v);
    PlusNum(r, v);
    Result64(1, r, v);
    Result64(0, r, v);
    Result64(4, r, v);
    Result64(0xC, r, v);
    Result64(8, r, v);
    Result64(0x10, r, v);
    Result64(0x14, r, v);
    Result64(0x18, r, v);
    Result64(0x1C, r, v);
  }

  /** The three logical combinations, bit by bit. */
  lemma LogicBelow(r: bv64, v: bv64)
    ensures forall i: nat :: i < 64 ==> (B.BitOf(Num(Xor(r, v)), i) <==> B.BitOf(Num(r), i) != B.BitOf(Num(v), i))
    ensures forall i: nat :: i < 64 ==> (B.BitOf(Num(And(r, v)), i) <==> B.BitOf(Num(r), i) && B.BitOf(Num(v), i))
    ensures forall i: nat :: i < 64 ==> (B.BitOf(Num(Or(r, v)), i) <==> B.BitOf(Num(r), i) || B.BitOf(Num(v), i))
  {
    hide *;
    forall i: nat | i < 64
      ensures B.BitOf(Num(Xor(r, v)), i) <==> B.BitOf(Num(r), i) != B.BitOf(Num(v), i)
      ensures B.BitOf(Num(And(r, v)), i) <==> B.BitOf(Num(r), i) && B.BitOf(Num(v), i)
      ensures B.BitOf(Num(Or(r, v)), i) <==> B.BitOf(Num(r), i) || B.BitOf(Num(v), i)
    {
      LogicBits(r, v, i);
    }
  }

  /** The 64-bit operations. */
  lemma Values64(r: bv64, v: bv64)
    ensures Values(64, Num(r), Num(v), Result(1, 8, r, v), Result(0, 8, r, v), Result(4, 8, r, v), Result(0xC, 8, r, v),
                   Result(8, 8, r, v), Result(0x10, 8, r, v), Result(0x14, 8, r, v), Result(0x18, 8, r, v), Result(0x1C, 8, r, v))
  {
    hide Num;
    hide Result;
    hide Pow2;
    hide Signed;
    hide B.BitOf;
    hide Less;
    hide Below;
    hide Xor;
    hide Or;
    hide And;
    Results64(r, v);
    LessSigned(r, v);
    LessSigned(v, r);
    BelowNum(r, v);
    BelowNum(v, r);
    LogicBelow(r, v);
    WordSize();
    HalvePow(64);
    ModSmall(Num(r), WORD);
    ModSmall(Num(v), WORD);
  }

  lemma Atomics64Codes()
    ensures AmoCode(0x0800_302F, 1, 3) && AmoCode(0x0000_302F, 0, 3) && AmoCode(0x2000_302F, 4, 3)
    ensures AmoCode(0x6000_302F, 0xC, 3) && AmoCode(0x4000_302F, 8, 3) && AmoCode(0x8000_302F, 0x10, 3)
    ensures AmoCode(0xA000_302F, 0x14, 3) && AmoCode(0xC000_302F, 0x18, 3) && AmoCode(0xE000_302F, 0x1C, 3)
  {
  }

  /** The atomic instructions on 64 bits. */
  lemma Atomics64(s: State, env: Env, order: bv32, rd: bv32, rs1: bv32, rs2: bv32)
    returns (swap: nat, sum: nat, xor: nat, and: nat, or: nat, min: nat, max: nat, minu: nat, maxu: nat)
    requires order < 4 && rd < 32 && rs1 < 32 && rs2 < 32
    ensures Values(64, Read(env), Num(s.x(rs2)), swap, sum, xor, and, or, min, max, minu, maxu)
    ensures var addr, before := Num(s.x(rs1)), Extend(Read(env), 64);
      && Updates(s, AmoWord(0x0800_302F, order, rd, rs1, rs2), env, rd, addr, 8, before, swap)
      && Updates(s, AmoWord(0x0000_302F, order, rd, rs1, rs2), env, rd, addr, 8, before, sum)
      && Updates(s, AmoWord(0x2000_302F, order, rd, rs1, rs2), env, rd, addr, 8, before, xor)
      && Updates(s, AmoWord(0x6000_302F, order, rd, rs1, rs2), env, rd, addr, 8, before, and)
      && Updates(s, AmoWord(0x4000_302F, order, rd, rs1, rs2), env, rd, addr, 8, before, or)
      && Updates(s, AmoWord(0x8000_302F, order, rd, rs1, rs2), env, rd, addr, 8, before, min)
      && Updates(s, AmoWord(0xA000_302F, order, rd, rs1, rs2), env, rd, addr, 8, before, max)
      && Updates(s, AmoWord(0xC000_302F, order, rd, rs1, rs2), env, rd, addr, 8, before, minu)
      && Updates(s, AmoWord(0xE000_302F, order, rd, rs1, rs2), env, rd, addr, 8, before, maxu)
  {
    hide *;
    Atomics64Codes();
    var r, v := Answer(env), s.x(rs2);
    AnswerNum(env);
    Values64(r, v);
    swap, sum, xor := Result(1, 8, r, v), Result(0, 8, r, v), Result(4, 8, r, v);
    and, or := Result(0xC, 8, r, v), Result(8, 8, r, v);
    min, max := Result(0x10, 8, r, v), Result(0x14, 8, r, v);
    minu, maxu := Result(0x18, 8, r, v), Result(0x1C, 8, r, v);
    ByAtomic(s, env, 0x0800_302F, 1, 3, order, rd, rs1, rs2, 8);
    ByAtomic(s, env, 0x0000_302F, 0, 3, order, rd, rs1, rs2, 8);
    ByAtomic(s, env, 0x2000_302F, 4, 3, order, rd, rs1, rs2, 8);
    ByAtomic(s, env, 0x6000_302F, 0xC, 3, order, rd, rs1, rs2, 8);
    ByAtomic(s, env, 0x4000_302F, 8, 3, order, rd, rs1, rs2, 8);
    ByAtomic(s, env, 0x8000_302F, 0x10, 3, order, rd, rs1, rs2, 8);
    ByAtomic(s, env, 0xA000_302F, 0x14, 3, order, rd, rs1, rs2, 8);
    ByAtomic(s, env, 0xC000_302F, 0x18, 3, order, rd, rs1, rs2, 8);
    ByAtomic(s, env, 0xE000_302F, 0x1C, 3, order, rd, rs1, rs2, 8);
  }

  // ---------- 32-bit operations ----------

  lemma ExtendLow(n: int, k: nat)
    requires 1 <= k <= 64
    ensures Extend(n, k) % Pow2(k) == n % Pow2(k)
  {
    hide Pow2;
    hide Signed;
    WordSize();
    HalvePow(k);
    Pow2Mono(k, 64);
    Pow2Add(k, 64 - k);
    var p, q := Pow2(k), Pow2(64 - k);
    DivMod(n, p);
    var r: nat := n % p;
    ExtendMod(r, Pow2(k - 1));
    SmallMod(r, p);
    Multiple(r, p, q - 1);
  }

  lemma SmallMod(n: int, p: nat)
    requires 0 <= n < p
    ensures n % p == n
  {
  }

  lemma Multiple(n: nat, p: nat, q: int)
    requires n < p
    ensures (n + (p * (q + 1) - p)) % p == n
  {
    MultipleOut(p, q);
    DivUnique(n + q * p, p, q, n);
  }

  lemma MultipleOut(p: nat, q: int)
    ensures p * (q + 1) - p == q * p
  {
  }

  /** Extension keeps the unsigned order too. */
  lemma ExtendOrder(a: nat, b: nat)
    ensures Extend(a, 32) < Extend(b, 32) <==> a % Pow2(32) < b % Pow2(32)
  {
    WordSize();
    HalvePow(32);
    Pow2Mono(32, 64);
    hide Pow2;
    ExtendMod(a % Pow2(32), Pow2(31));
    ExtendMod(b % Pow2(32), Pow2(31));
  }

  lemma Result32(op: bv32, r: bv64, v: bv64)
    ensures Result(op, 4, r, v) == Num(AtomicFull(op, Word(v), Extended(4, true, r), v)) % Pow2(32)
  {
    ResultIs32(op, r, v);
    hide *;
    var full := AtomicFull(op, Word(v), Extended(4, true, r), v);
    WordNum(full);
    ExtendLow(Num(full), 32);
  }

  lemma ResultIs32(op: bv32, r: bv64, v: bv64)
    ensures Result(op, 4, r, v) == Num(Word(AtomicFull(op, Word(v), Extended(4, true, r), v))) % Pow2(32)
  {
    hide Num;
    hide Word;
    hide AtomicFull;
    hide Extended;
    hide Pow2;
  }

  /** `Result32` for a value computed as `full`. */
  lemma Became(op: bv32, r: bv64, v: bv64, full: bv64)
    requires AtomicFull(op, Word(v), Extended(4, true, r), v) == full
    ensures Result(op, 4, r, v) == Num(full) % Pow2(32)
  {
    hide *;
    Result32(op, r, v);
  }

  lemma Results32(r: bv64, v: bv64, was: bv64, m: nat)
    requires was == Extended(4, true, r) && m == Pow2(32)
    ensures Result(1, 4, r, v) == Num(v) % m && Result(0, 4, r, v) == (Num(was) + Num(v)) % m
    ensures Result(4, 4, r, v) == Num(Xor(was, v)) % m && Result(0xC, 4, r, v) == Num(And(was, v)) % m
    ensures Result(8, 4, r, v) == Num(Or(was, v)) % m
  {
    hide *;
    FullValues(Word(v), was, v);
    FullValuesMore(Word(v), was, v);
    PlusNum(was, v);
    WrappedMod(Num(was) + Num(v));
    Became(1, r, v, v);
    Became(0, r, v, Plus(was, v));
    Became(4, r, v, Xor(was, v));
    Became(0xC, r, v, And(was, v));
    Became(8, r, v, Or(was, v));
  }

  lemma Ordered32(r: bv64, v: bv64, was: bv64, m: nat)
    requires was == Extended(4, true, r) && m == Pow2(32)
    ensures Result(0x10, 4, r, v) == (if Less(was, Word(v)) then Num(was) else Num(v)) % m
    ensures Result(0x14, 4, r, v) == (if Less(Word(v), was) then Num(was) else Num(v)) % m
    ensures Result(0x18, 4, r, v) == (if Below(was, Word(v)) then Num(was) else Num(v)) % m
    ensures Result(0x1C, 4, r, v) == (if Below(Word(v), was) then Num(was) else Num(v)) % m
  {
    hide *;
    var w := Word(v);
    FullValues(w, was, v);
    FullValuesMore(w, was, v);
    Became(0x10, r, v, if Less(was, w) then was else v);
    Became(0x14, r, v, if Less(w, was) then was else v);
    Became(0x18, r, v, if Below(was, w) then was else v);
    Became(0x1C, r, v, if Below(w, was) then was else v);
  }

  lemma WrappedMod(n: int)
    ensures n % WORD % Pow2(32) == n % Pow2(32)
  {
    WordSize();
    Pow2Add(32, 32);
    hide Pow2;
    NestedMod(n, Pow2(32), Pow2(32));
  }

  /** Bits below `k` are those of the number modulo `2^k`. */
  lemma BitMod(n: nat, k: nat, i: nat)
    requires i < k
    ensures B.BitOf(n % Pow2(k), i) <==> B.BitOf(n, i)
  {
    Pow2Add(i + 1, k - i - 1);
    HalvePow(i + 1);
    hide Pow2;
    LowBits(n, Pow2(i), Pow2(k - i - 1), Pow2(k));
  }

  lemma LowBits(n: nat, p: nat, q: nat, m: nat)
    requires p >= 1 && q >= 1 && m == 2 * p * q
    ensures Quot(n % m, p) % 2 == Quot(n, p) % 2
  {
    DivMod(n, m);
    var y, r := n / m, n % m;
    DivMod(r, p);
    Regrouped(y, p, q, m);
    Distribute(y * (2 * q), r / p, p);
    DivUnique(n, p, y * (2 * q) + r / p, r % p);
    Even(y, q, r / p);
  }

  lemma Regrouped(y: nat, p: nat, q: nat, m: nat)
    requires m == 2 * p * q
    ensures y * m == y * (2 * q) * p
  {
    assert m == 2 * q * p by { MulSwap(p, q); MulAssoc(2, p, q); MulAssoc(2, q, p); }
    MulAssoc(y, 2 * q, p);
  }

  lemma Even(y: nat, q: nat, z: int)
    ensures (y * (2 * q) + z) % 2 == z % 2
  {
    assert y * (2 * q) == 2 * (y * q);
  }

  /** Numbers that agree modulo `2^32` have the same low bits, and so do their combinations. */
  lemma LogicBelow32(r: bv64, v: bv64)
    ensures var was, m := Extended(4, true, r), Pow2(32);
      forall i: nat :: i < 32 ==>
        && (B.BitOf(Num(Xor(was, v)) % m, i) <==> B.BitOf(Num(r), i) != B.BitOf(Num(v), i))
        && (B.BitOf(Num(And(was, v)) % m, i) <==> B.BitOf(Num(r), i) && B.BitOf(Num(v), i))
        && (B.BitOf(Num(Or(was, v)) % m, i) <==> B.BitOf(Num(r), i) || B.BitOf(Num(v), i))
  {
    hide *;
    var was, m := Extended(4, true, r), Pow2(32);
    LogicBelow(was, v);
    ReadLow(r);
    forall i: nat | i < 32
      ensures B.BitOf(Num(Xor(was, v)) % m, i) <==> B.BitOf(Num(r), i) != B.BitOf(Num(v), i)
      ensures B.BitOf(Num(And(was, v)) % m, i) <==> B.BitOf(Num(r), i) && B.BitOf(Num(v), i)
      ensures B.BitOf(Num(Or(was, v)) % m, i) <==> B.BitOf(Num(r), i) || B.BitOf(Num(v), i)
    {
      BitMod(Num(Xor(was, v)), 32, i);
      BitMod(Num(And(was, v)), 32, i);
      BitMod(Num(Or(was, v)), 32, i);
      BitMod(Num(was), 32, i);
      BitMod(Num(r), 32, i);
    }
  }

  lemma ReadLow(r: bv64)
    ensures Num(Extended(4, true, r)) == Extend(Num(r), 32) && Num(Extended(4, true, r)) % Pow2(32) == Num(r) % Pow2(32)
  {
    hide *;
    SignedLoad(r);
    ExtendLow(Num(r), 32);
  }

  lemma Orders32(r: bv64, v: bv64)
    ensures var was, w, m, h := Extended(4, true, r), Word(v), Pow2(32), Pow2(31);
      && (Less(was, w) <==> Signed(Num(r) % m, h) < Signed(Num(v) % m, h))
      && (Less(w, was) <==> Signed(Num(v) % m, h) < Signed(Num(r) % m, h))
      && (Below(was, w) <==> Num(r) % m < Num(v) % m) && (Below(w, was) <==> Num(v) % m < Num(r) % m)
  {
    hide *;
    var was, w := Extended(4, true, r), Word(v);
    ReadLow(r);
    WordNum(v);
    LessSigned(was, w);
    LessSigned(w, was);
    BelowNum(was, w);
    BelowNum(w, was);
    ExtendSigned(Num(r), 32);
    ExtendSigned(Num(v), 32);
    ExtendOrder(Num(r), Num(v));
    ExtendOrder(Num(v), Num(r));
  }

  /** The 32-bit operations. */
  lemma Values32(r: bv64, v: bv64)
    ensures Values(32, Num(r), Num(v), Result(1, 4, r, v), Result(0, 4, r, v), Result(4, 4, r, v), Result(0xC, 4, r, v),
                   Result(8, 4, r, v), Result(0x10, 4, r, v), Result(0x14, 4, r, v), Result(0x18, 4, r, v), Result(0x1C, 4, r, v))
  {
    hide Num;
    hide Result;
    hide Pow2;
    hide Signed;
    hide B.BitOf;
    hide Less;
    hide Below;
    hide Xor;
    hide Or;
    hide And;
    hide Word;
    hide Extended;
    hide Extend;
    var was, m := Extended(4, true, r), Pow2(32);
    Results32(r, v, was, m);
    Ordered32(r, v, was, m);
    ReadLow(r);
    Orders32(r, v);
    LogicBelow32(r, v);
    SumMod(Num(Extended(4, true, r)), Num(r), Num(v), Pow2(32));
  }

  lemma SumMod(a: nat, b: nat, c: nat, p: nat)
    requires p >= 1 && a % p == b % p
    ensures (a + c) % p == (b + c) % p
  {
    DivMod(a, p);
    DivMod(b, p);
    DivMod(b + c, p);
    var y, z, t := a / p, b / p, (b + c) / p;
    Distribute(y - z, t, p);
    Distribute(y, 0 - z, p);
    DivUnique(a + c, p, y - z + t, (b + c) % p);
  }

  lemma Atomics32Codes()
    ensures AmoCode(0x0800_202F, 1, 2) && AmoCode(0x0000_202F, 0, 2) && AmoCode(0x2000_202F, 4, 2)
    ensures AmoCode(0x6000_202F, 0xC, 2) && AmoCode(0x4000_202F, 8, 2) && AmoCode(0x8000_202F, 0x10, 2)
    ensures AmoCode(0xA000_202F, 0x14, 2) && AmoCode(0xC000_202F, 0x18, 2) && AmoCode(0xE000_202F, 0x1C, 2)
  {
  }

  /** The atomic instructions on 32 bits. */
  lemma Atomics32(s: State, env: Env, order: bv32, rd: bv32, rs1: bv32, rs2: bv32)
    returns (swap: nat, sum: nat, xor: nat, and: nat, or: nat, min: nat, max: nat, minu: nat, maxu: nat)
    requires order < 4 && rd < 32 && rs1 < 32 && rs2 < 32
    ensures Values(32, Read(env), Num(s.x(rs2)), swap, sum, xor, and, or, min, max, minu, maxu)
    ensures var addr, before := Num(s.x(rs1)), Extend(Read(env), 32);
      && Updates(s, AmoWord(0x0800_202F, order, rd, rs1, rs2), env, rd, addr, 4, before, swap)
      && Updates(s, AmoWord(0x0000_202F, order, rd, rs1, rs2), env, rd, addr, 4, before, sum)
      && Updates(s, AmoWord(0x2000_202F, order, rd, rs1, rs2), env, rd, addr, 4, before, xor)
      && Updates(s, AmoWord(0x6000_202F, order, rd, rs1, rs2), env, rd, addr, 4, before, and)
      && Updates(s, AmoWord(0x4000_202F, order, rd, rs1, rs2), env, rd, addr, 4, before, or)
      && Updates(s, AmoWord(0x8000_202F, order, rd, rs1, rs2), env, rd, addr, 4, before, min)
      && Updates(s, AmoWord(0xA000_202F, order, rd, rs1, rs2), env, rd, addr, 4, before, max)
      && Updates(s, AmoWord(0xC000_202F, order, rd, rs1, rs2), env, rd, addr, 4, before, minu)
      && Updates(s, AmoWord(0xE000_202F, order, rd, rs1, rs2), env, rd, addr, 4, before, maxu)
  {
    hide *;
    Atomics32Codes();
    var r, v := Answer(env), s.x(rs2);
    AnswerNum(env);
    Values32(r, v);
    swap, sum, xor := Result(1, 4, r, v), Result(0, 4, r, v), Result(4, 4, r, v);
    and, or := Result(0xC, 4, r, v), Result(8, 4, r, v);
    min, max := Result(0x10, 4, r, v), Result(0x14, 4, r, v);
    minu, maxu := Result(0x18, 4, r, v), Result(0x1C, 4, r, v);
    ByAtomic(s, env, 0x0800_202F, 1, 2, order, rd, rs1, rs2, 4);
    ByAtomic(s, env, 0x0000_202F, 0, 2, order, rd, rs1, rs2, 4);
    ByAtomic(s, env, 0x2000_202F, 4, 2, order, rd, rs1, rs2, 4);
    ByAtomic(s, env, 0x6000_202F, 0xC, 2, order, rd, rs1, rs2, 4);
    ByAtomic(s, env, 0x4000_202F, 8, 2, order, rd, rs1, rs2, 4);
    ByAtomic(s, env, 0x8000_202F, 0x10, 2, order, rd, rs1, rs2, 4);
    ByAtomic(s, env, 0xA000_202F, 0x14, 2, order, rd, rs1, rs2, 4);
    ByAtomic(s, env, 0xC000_202F, 0x18, 2, order, rd, rs1, rs2, 4);
    ByAtomic(s, env, 0xE000_202F, 0x1C, 2, order, rd, rs1, rs2, 4);
  }

  // ---------- load-reserved and store-conditional ----------

  /** lr: `rd` gets the number read, and the address is remembered. */
  ghost predicate Reserves(s: State, word: bv32, env: Env, rd: bv32, addr: int, size: nat, n: int) {
    var r := Executed(s, word, env);
    && Accesses(s, word, addr, size)
    && (env.first.Done? ==>
          && r.Retired? && r.stored == None && Num(r.state.pc) == After(s) && Num(r.state.loadRes) == addr
          && r.state == s.(x := r.state.x, loadRes := r.state.loadRes, pc := r.state.pc)
          && (forall k :: k != rd ==> r.state.x(k) == s.x(k))
          && (if rd == 0 then r.state.x(0) == s.x(0) else Num(r.state.x(rd)) == n))
  }

  /** sc: at the remembered address it stores, forgets the address and answers 0; elsewhere it
      answers 1 and no more. */
  ghost predicate Conditional(s: State, word: bv32, env: Env, rd: bv32, addr: int, size: nat, n: int) {
    var r := Executed(s, word, env);
    && Accesses(s, word, addr, size)
    && (Num(s.loadRes) != addr ==> Gives(s, word, env, rd, 1))
    && (Num(s.loadRes) == addr && env.first.Faulted? ==> Faults(s, r, env.first))
    && (Num(s.loadRes) == addr && env.first.Done? ==>
          && Puts(r, addr, size, n % Pow2(8 * size)) && Num(r.state.pc) == After(s)
          && r.state == s.(x := r.state.x, loadRes := 0, pc := r.state.pc)
          && (forall k :: k != rd ==> r.state.x(k) == s.x(k))
          && (if rd == 0 then r.state.x(0) == s.x(0) else Num(r.state.x(rd)) == 0))
  }

  lemma ReservedShape(x: Regs, i: bv32, op: bv32, size: nat)
    requires i >> 27 == op && (op == 3 || (op == 2 && Rs2(i) == 0))
    requires (Funct3(i) == 2 && size == 4) || (Funct3(i) == 3 && size == 8)
    ensures op == 2 ==> AtomicAct(x, i) == LoadReserved(Rd(i), x(Rs1(i)), size)
    ensures op == 3 ==> AtomicAct(x, i) == StoreConditional(Rd(i), x(Rs1(i)), size, x(Rs2(i)))
  {
    hide Funct3;
    hide Rd;
    hide Rs1;
    hide Rs2;
  }

  lemma ReservedActs(s: State, code: bv32, op: bv32, f3: bv32, order: bv32, rd: bv32, rs1: bv32, rs2: bv32, size: nat)
    requires AmoCode(code, op, f3) && order < 4 && rd < 32 && rs1 < 32 && rs2 < 32
    requires (op == 3 || (op == 2 && rs2 == 0)) && ((f3 == 2 && size == 4) || (f3 == 3 && size == 8))
    ensures var word := AmoWord(code, order, rd, rs1, rs2);
      && (op == 2 ==> Acts(s, word, LoadReserved(rd, s.x(rs1), size)))
      && (op == 3 ==> Acts(s, word, StoreConditional(rd, s.x(rs1), size, s.x(rs2))))
  {
    hide *;
    var i := AmoWord(code, order, rd, rs1, rs2);
    AmoFields(code, op, f3, order, rd, rs1, rs2);
    FullSize(i);
    AtomicIs(s, i);
    ReservedShape(s.x, i, op, size);
  }

  lemma ReserveDone(s: State, word: bv32, env: Env, rd: bv32, addr: bv64, size: nat, n: int)
    requires Acts(s, word, LoadReserved(rd, addr, size))
    requires env.first.Done? ==> Num(Extended(size, true, env.first.value)) == n
    ensures Reserves(s, word, env, rd, Num(addr), size, n)
  {
    hide BaseAct;
    hide Num;
    hide Quadrant;
    hide Extended;
    NextPc(s.pc);
    hide Plus;
    assert Executed(s, word, env) == Perform(s, LoadReserved(rd, addr, size), word, 4, env);
  }

  lemma ConditionalDone(s: State, word: bv32, env: Env, rd: bv32, addr: bv64, size: nat, v: bv64)
    requires Acts(s, word, StoreConditional(rd, addr, size, v))
    ensures Conditional(s, word, env, rd, Num(addr), size, Num(v))
  {
    hide BaseAct;
    hide Num;
    hide Quadrant;
    hide Pow2;
    if Num(s.loadRes) == Num(addr) {
      SameNum(s.loadRes, addr);
    }
    SmallNums();
    NextPc(s.pc);
    hide Plus;
    assert Executed(s, word, env) == Perform(s, StoreConditional(rd, addr, size, v), word, 4, env);
  }

  lemma SmallNums()
    ensures Num(0) == 0 && Num(1) == 1
  {
    ZeroNum(0);
    assert Inc(0) == 1;
    IncNum(0);
    hide Num;
  }

  lemma ReservedCodes()
    ensures AmoCode(0x1000_202F, 2, 2) && AmoCode(0x1000_302F, 2, 3) && AmoCode(0x1800_202F, 3, 2) && AmoCode(0x1800_302F, 3, 3)
  {
  }

  /** lr.w, lr.d, sc.w and sc.d. */
  lemma Reservations(s: State, env: Env, order: bv32, rd: bv32, rs1: bv32, rs2: bv32)
    requires order < 4 && rd < 32 && rs1 < 32 && rs2 < 32
    ensures var addr, v := Num(s.x(rs1)), Num(s.x(rs2));
      && Reserves(s, AmoWord(0x1000_202F, order, rd, rs1, 0), env, rd, addr, 4, Extend(Read(env), 32))
      && Reserves(s, AmoWord(0x1000_302F, order, rd, rs1, 0), env, rd, addr, 8, Read(env))
      && Conditional(s, AmoWord(0x1800_202F, order, rd, rs1, rs2), env, rd, addr, 4, v)
      && Conditional(s, AmoWord(0x1800_302F, order, rd, rs1, rs2), env, rd, addr, 8, v)
  {
    hide *;
    ReservedCodes();
    ReadIs(env);
    ReservedActs(s, 0x1000_202F, 2, 2, order, rd, rs1, 0, 4);
    ReservedActs(s, 0x1000_302F, 2, 3, order, rd, rs1, 0, 8);
    ReservedActs(s, 0x1800_202F, 3, 2, order, rd, rs1, rs2, 4);
    ReservedActs(s, 0x1800_302F, 3, 3, order, rd, rs1, rs2, 8);
    ReserveDone(s, AmoWord(0x1000_202F, order, rd, rs1, 0), env, rd, s.x(rs1), 4, Extend(Read(env), 32));
    ReserveDone(s, AmoWord(0x1000_302F, order, rd, rs1, 0), env, rd, s.x(rs1), 8, Read(env));
    ConditionalDone(s, AmoWord(0x1800_202F, order, rd, rs1, rs2), env, rd, s.x(rs1), 4, s.x(rs2));
    ConditionalDone(s, AmoWord(0x1800_302F, order, rd, rs1, rs2), env, rd, s.x(rs1), 8, s.x(rs2));
  }
}
