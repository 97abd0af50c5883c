/** The hart's privileged state and everything that changes it: CSR writes, trap entry and
    return, the interrupt controller and the sleep flag (regs.c, regs.h, plic.c). Registers
    whose bits are used one by one are sets of bit numbers; all others are 64-bit numbers. */
module Hart {
  import opened Bits
  import opened BitSets

  const WORD: nat := 0x1_0000_0000_0000_0000
  type Byte = b: nat | b < 256
  type Word = w: nat | w < 0x1_0000_0000_0000_0000 witness 0

  const PRIV_U: nat := 0
  const PRIV_S: nat := 1
  const PRIV_M: nat := 3

  // bit numbers of mstatus; the enable bit of privilege p is bit p
  const SPIE: nat := 5
  const MPIE: nat := 7
  const SPP: nat := 8
  const MPP: nat := 11
  const FS: nat := 13
  const UXL: nat := 32
  const SXL: nat := 34

  const MSTATUS_MASK: set<nat> := {0, 1, 3, 4, 5, 7, 8, 11, 12, 13, 14, 17, 18, 19}
  const SSTATUS_MASK: set<nat> := {0, 1, 4, 5, 8, 13, 14, 15, 16, 18, 19, 32, 33}
  const FS_MASK: set<nat> := {13, 14}
  const UXL_MASK: set<nat> := {32, 33}
  const SXL_MASK: set<nat> := {34, 35}
  /** Bits the stored mstatus can hold: the writable ones except FS, which `fs` holds, and
      bit 2, which a return to privilege 2 writes. */
  const STORED: set<nat> := MSTATUS_MASK - FS_MASK + UXL_MASK + SXL_MASK + {2}

  // bit numbers of mip, mie and mideleg
  const SSI: nat := 1
  const STI: nat := 5
  const MTI: nat := 7
  const SEI: nat := 9
  const MEI: nat := 11
  const MIE_MASK: set<nat> := {1, 3, 5, 7, 9}
  /** The pending bits anything in the machine ever sets. */
  const MIP_MASK: set<nat> := {1, 5, 7, 9, 11}
  const MIDELEG_MASK: set<nat> := {1, 5, 9}
  const ALL_BITS: set<nat> := set i: nat | i < 64
  const MEDELEG_MASK: set<nat> := set i: nat | i < 16

  /** The trap registers of one mode. */
  datatype TrapRegs = TrapRegs(tvec: Word, scratch: Word, epc: Word, cause: Word, tval: Word, counteren: set<nat>)

  datatype FloatRegs = FloatRegs(fs: nat, fflags: Byte, frm: Byte)

  /** The interrupt controller's lines. */
  datatype Plic = Plic(pending: set<nat>, served: set<nat>)

  /** A snapshot of `cpu_state`. */
  datatype Cpu = Cpu(
    pc: Word, priv: nat, xlen: nat, mxl: nat, mstatus: set<nat>,
    mie: set<nat>, mip: set<nat>, medeleg: set<nat>, mideleg: set<nat>,
    m: TrapRegs, s: TrapRegs, fp: FloatRegs, satp: Word, cycles: Word,
    plic: Plic, sleeping: bool)

  datatype Cause = Exception(code: nat) | Interrupt(code: nat)

  // ---------- the fields of mstatus ----------

  /** The bit holding the previous interrupt enable, for traps into mode `lvl`. */
  function PieBit(lvl: nat): nat {
    if lvl == PRIV_S then SPIE else MPIE
  }

  /** The bits holding the previous privilege. */
  function PpMask(lvl: nat): set<nat> {
    if lvl == PRIV_S then {SPP} else {MPP, MPP + 1}
  }

  /** Previous privilege. */
  function Pp(m: set<nat>, lvl: nat): (p: nat)
    ensures p <= 3
  {
    if lvl == PRIV_S then (if SPP in m then 1 else 0) else Field(m, MPP)
  }

  /** The register width a width code stands for. */
  function Width(code: nat): nat {
    Pow2(4 + code)
  }

  /** The width code in force at privilege `p`. */
  function XLenCode(mstatus: set<nat>, mxl: nat, p: nat): nat {
    if p == PRIV_S then Field(mstatus, SXL) else if p == PRIV_U then Field(mstatus, UXL) else mxl
  }

  /** The width after moving from privilege `p`, where it was `xlen`, to `q`. */
  function MovedWidth(p: nat, xlen: nat, mstatus: set<nat>, mxl: nat, q: nat): nat {
    if q == p then xlen else Width(XLenCode(mstatus, mxl, q))
  }

  /** Two values of a register that agree outside `mask`. */
  ghost predicate SameOutside(m: set<nat>, n: set<nat>, mask: set<nat>) {
    n - mask == m - mask
  }

  /** mstatus after a trap from privilege `p` into mode `lvl`: the enable bit of the
      interrupted privilege and the privilege itself are stacked, interrupts of `lvl` are
      masked, and no other bit changes. */
  ghost predicate Pushed(m: set<nat>, n: set<nat>, p: nat, lvl: nat) {
    && (PieBit(lvl) in n <==> p in m)
    && Pp(n, lvl) == p
    && lvl !in n
    && SameOutside(m, n, PpMask(lvl) + {PieBit(lvl), lvl})
  }

  /** mstatus after a return from mode `lvl`: the stacked enable bit goes back to the
      privilege returned to, the stack is reset, and no other bit changes. */
  ghost predicate Popped(m: set<nat>, n: set<nat>, lvl: nat) {
    var p := Pp(m, lvl);
    && (p in n <==> PieBit(lvl) in m)
    && PieBit(lvl) in n
    && Pp(n, lvl) == 0
    && SameOutside(m, n, PpMask(lvl) + {PieBit(lvl), p})
  }

  lemma PushS(m: set<nat>, n: set<nat>, p: nat)
    requires p <= 1
    requires n == ((m - {SPIE}) + (if p in m then {SPIE} else {}) - {SPP}) + Put(p, SPP) - {1}
    ensures Pushed(m, n, p, PRIV_S)
  {
  }

  lemma PushM(m: set<nat>, n: set<nat>, p: nat)
    requires p <= 3
    requires n == ((m - {MPIE}) + (if p in m then {MPIE} else {}) - {MPP, MPP + 1}) + Put(p, MPP) - {3}
    ensures Pushed(m, n, p, PRIV_M)
  {
  }

  lemma PopS(m: set<nat>, n: set<nat>)
    requires var p := if SPP in m then 1 else 0;
      n == m - {p} + (if SPIE in m then {p} else {}) + {SPIE} - {SPP}
    ensures Popped(m, n, PRIV_S)
  {
  }

  lemma PopM(m: set<nat>, n: set<nat>)
    requires var p := Field(m, MPP);
      n == m - {p} + (if MPIE in m then {p} else {}) + {MPIE} - {MPP, MPP + 1}
    ensures Popped(m, n, PRIV_M)
  {
  }

  // ---------- the invariant ----------

  predicate Legal(code: nat) {
    code == 1 || code == 2
  }

  /** The lines that are pending and not being served. */
  function Eligible(c: Cpu): set<nat> {
    c.plic.pending - c.plic.served
  }

  /** A supported translation mode, no address space number, and a page number. */
  predicate SatpShape(satp: Word) {
    satp / 0x1000_0000_0000_0000 in {0, 8, 9} && satp % 0x1000_0000_0000_0000 < 0x1000_0000_0000
  }

  ghost predicate Valid(c: Cpu) {
    && c.priv <= 3
    && Legal(c.mxl) && Legal(Field(c.mstatus, UXL))
    && c.xlen == Width(XLenCode(c.mstatus, c.mxl, c.priv))
    && c.mstatus <= STORED && c.fp.fs <= 3
    && c.mie <= MIE_MASK && c.mip <= MIP_MASK
    && c.mideleg <= MIDELEG_MASK && c.medeleg <= MEDELEG_MASK
    && c.pc % 2 == 0 && c.s.epc % 2 == 0 && c.m.epc % 2 == 0
    && c.fp.fflags < 32 && c.fp.frm < 5 && SatpShape(c.satp)
    && c.m.counteren <= {0, 2} && c.s.counteren <= {0, 2}
    && (forall i :: i in c.plic.pending ==> i < 32)
    && (MEI in c.mip <==> Eligible(c) != {})
    && (c.sleeping ==> c.mip * c.mie == {})
  }

  // ---------- what the operations do ----------

  /** New pending bits. A sleeping hart wakes when one of them is enabled. */
  function WithMip(c: Cpu, mip: set<nat>): Cpu {
    c.(mip := mip, sleeping := c.sleeping && mip * c.mie == {})
  }

  /** The controller raises both external bits while some line is pending and not being
      served, and clears both otherwise. */
  function Synced(c: Cpu): Cpu {
    WithMip(c, if Eligible(c) != {} then c.mip + {MEI, SEI} else c.mip - {MEI, SEI})
  }

  function LineSet(c: Cpu, irq: nat, flag: bool): Cpu
    requires irq >= 1
  {
    Synced(c.(plic := c.plic.(pending := if flag then c.plic.pending + {irq - 1} else c.plic.pending - {irq - 1})))
  }

  /** A claim answers with the lowest eligible line, counted from 1, and marks it served. */
  ghost predicate Claimed(s: Cpu, t: Cpu, result: nat) {
    if Eligible(s) == {} then result == 0 && t == s
    else
      && result >= 1 && Lowest(Eligible(s), result - 1)
      && t == Synced(s.(plic := s.plic.(served := s.plic.served + {result - 1})))
  }

  function Completed(c: Cpu, value: nat): Cpu {
    if 1 <= value <= 32 then Synced(c.(plic := c.plic.(served := c.plic.served - {value - 1}))) else c
  }

  function TrapMode(c: Cpu, cause: Cause): nat {
    if c.priv <= PRIV_S && cause.code in (if cause.Interrupt? then c.mideleg else c.medeleg) then PRIV_S else PRIV_M
  }

  /** The cause register: an interrupt sets its top bit at the width in force. The shift that
      makes this bit is undefined at width 128, where the bit is taken to fall off. */
  function CauseWord(xlen: nat, cause: Cause): nat {
    cause.code + (if cause.Interrupt? && 1 <= xlen <= 64 then Pow2(xlen - 1) else 0)
  }

  /** Where a trap with vector register `tvec` goes. Vectored interrupts add four times the
      whole cause register, its top bit included. */
  function Target(tvec: Word, interrupt: bool, causel: nat): Word {
    var base := tvec - tvec % 4;
    if interrupt && tvec % 4 != 0 then (base + causel * 4) % WORD else base
  }

  function TrapRegsOf(c: Cpu, lvl: nat): TrapRegs {
    if lvl == PRIV_S then c.s else c.m
  }

  function WithTrapRegs(c: Cpu, lvl: nat, r: TrapRegs): Cpu {
    if lvl == PRIV_S then c.(s := r) else c.(m := r)
  }

  ghost predicate Trapped(s: Cpu, t: Cpu, cause: Cause, tval: Word)
    requires cause.code < 32 && s.xlen in {16, 32, 64, 128}
  {
    CauseFits(s.xlen, cause);
    var lvl := TrapMode(s, cause);
    var code := CauseWord(s.xlen, cause);
    && Pushed(s.mstatus, t.mstatus, s.priv, lvl)
    && t == WithTrapRegs(s, lvl, TrapRegsOf(s, lvl).(epc := s.pc, cause := code, tval := tval)).(
              pc := Target(TrapRegsOf(s, lvl).tvec, cause.Interrupt?, code), mstatus := t.mstatus, priv := lvl,
              xlen := MovedWidth(s.priv, s.xlen, t.mstatus, s.mxl, lvl))
  }

  lemma Widths()
    ensures Width(0) == 16 && Width(1) == 32 && Width(2) == 64 && Width(3) == 128
    ensures Pow2(15) == 0x8000 && Pow2(31) == 0x8000_0000 && Pow2(63) == 0x8000_0000_0000_0000 && Pow2(64) == WORD
  {
    assert Pow2(4) == 16;
    assert Pow2(8) == 256;
    assert Pow2(12) == 4096;
    assert Pow2(15) == 0x8000;
    Pow2Add(15, 16);
    assert Pow2(16) == 0x1_0000;
    Pow2Add(32, 31);
    Pow2Add(31, 1);
    Pow2Add(63, 1);
  }

  lemma CauseOr(xlen: nat, cause: Cause)
    requires cause.code < 32 && xlen in {16, 32, 64, 128}
    ensures var flag := if cause.Interrupt? then Pow2(xlen - 1) % WORD else 0;
      BitOr(cause.code, flag) == CauseWord(xlen, cause)
  {
    hide BitOr;
    hide Pow2;
    Widths();
    BitOrZero(cause.code);
    if cause.Interrupt? && xlen <= 64 {
      FiveBits();
      Pow2Add(xlen - 6, 5);
      MulMod(Pow2(xlen - 6), 32);
      BitOrDisjoint(Pow2(xlen - 1), cause.code, 5);
    }
    if xlen == 128 {
      Pow2Add(63, 64);
      MulMod(Pow2(63), WORD);
    }
  }

  lemma FiveBits()
    ensures Pow2(5) == 32
  {
    assert Pow2(3) == 8;
  }

  lemma CauseFits(xlen: nat, cause: Cause)
    requires cause.code < 32 && xlen in {16, 32, 64, 128}
    ensures CauseWord(xlen, cause) < WORD
  {
    Widths();
  }

  /** Return from a trap taken in mode `lvl`. */
  ghost predicate Returned(s: Cpu, t: Cpu, lvl: nat) {
    var p := Pp(s.mstatus, lvl);
    && Popped(s.mstatus, t.mstatus, lvl)
    && t == s.(mstatus := t.mstatus, priv := p, pc := TrapRegsOf(s, lvl).epc, xlen := MovedWidth(s.priv, s.xlen, t.mstatus, s.mxl, p))
  }

  /** The interrupts that may be taken now: pending, enabled, and not masked at this
      privilege. Delegated ones never interrupt machine mode. */
  ghost predicate Takeable(c: Cpu, i: nat) {
    && i in c.mip && i in c.mie
    && (if c.priv == PRIV_M then PRIV_M in c.mstatus && i !in c.mideleg
        else c.priv == PRIV_S && i in c.mideleg ==> PRIV_S in c.mstatus)
  }

  ghost predicate InterruptTaken(s: Cpu, t: Cpu, taken: bool)
    requires s.xlen in {16, 32, 64, 128}
  {
    if taken then
      exists i: nat :: i < 32 && Takeable(s, i) && (forall j: nat :: Takeable(s, j) ==> i <= j)
        && Trapped(s, t, Interrupt(i), 0)
    else t == s && forall i: nat :: !Takeable(s, i)
  }

  /** The bits of a register under `mask` take the written value, the rest stay. */
  function Merge(m: set<nat>, val: set<nat>, mask: set<nat>): set<nat> {
    (m - mask) + val * mask
  }

  /** The width fields are only written together, and only when the new UXL is supported. */
  function MstatusMask(val: set<nat>): set<nat> {
    MSTATUS_MASK - FS_MASK + (if Legal(Field(val, UXL)) then UXL_MASK + SXL_MASK else {})
  }

  function MstatusSet(c: Cpu, val: set<nat>): Cpu {
    c.(fp := c.fp.(fs := Field(val, FS)), mstatus := Merge(c.mstatus, val, MstatusMask(val)))
  }

  function FrmOf(val: nat): Byte {
    if val % 8 >= 5 then 0 else val % 8
  }

  function SatpOf(satp: Word, val: Word): (r: Word) {
    var mode := if val / 0x1000_0000_0000_0000 in {0, 8, 9} then val / 0x1000_0000_0000_0000
                else satp / 0x1000_0000_0000_0000;
    val % 0x1000_0000_0000 + mode * 0x1000_0000_0000_0000
  }

  datatype Written = Done | WidthChanged | Refetch | NoCsr

  /** The new MXL code found in the top two bits of a value written to misa. */
  function NewMxl(xlen: nat, val: Word): nat {
    if xlen < 2 then 0 else Quot(val, Pow2(xlen - 2)) % 4
  }

  function Even(val: Word): Word {
    val - val % 2
  }

  function CsrResult(c: Cpu, csr: nat, val: Word): (Cpu, Written) {
    if csr < 0x100 then FloatWritten(c, csr, val)
    else if csr < 0x300 then SupervisorWritten(c, csr, val, Set(val, 64))
    else MachineWritten(c, csr, val, Set(val, 64))
  }

  function FloatWritten(c: Cpu, csr: nat, val: Word): (Cpu, Written) {
    match csr
    case 0x001 => (c.(fp := c.fp.(fflags := val % 32, fs := 3)), Done)
    case 0x002 => (c.(fp := c.fp.(frm := FrmOf(val), fs := 3)), Done)
    case 0x003 => (c.(fp := FloatRegs(3, val % 32, FrmOf(val / 32))), Done)
    case _ => (c, NoCsr)
  }

  function SupervisorWritten(c: Cpu, csr: nat, val: Word, bits: set<nat>): (Cpu, Written) {
    match csr
    case 0x100 => (MstatusSet(c, Merge(c.mstatus, bits, SSTATUS_MASK)), Done)
    case 0x104 => (c.(mie := Merge(c.mie, bits, c.mideleg)), Done)
    case 0x105 => (c.(s := c.s.(tvec := val)), Done)
    case 0x106 => (c.(s := c.s.(counteren := bits * {0, 2})), Done)
    case 0x140 => (c.(s := c.s.(scratch := val)), Done)
    case 0x141 => (c.(s := c.s.(epc := Even(val))), Done)
    case 0x142 => (c.(s := c.s.(cause := val)), Done)
    case 0x143 => (c.(s := c.s.(tval := val)), Done)
    case 0x144 => (c.(mip := Merge(c.mip, bits, c.mideleg)), Done)
    case 0x180 => (c.(satp := SatpOf(c.satp, val)), Refetch)
    case _ => (c, NoCsr)
  }

  function MachineWritten(c: Cpu, csr: nat, val: Word, bits: set<nat>): (Cpu, Written) {
    match csr
    case 0x300 => (MstatusSet(c, bits), Done)
    case 0x301 =>
      var code := NewMxl(c.xlen, val);
      if Legal(code) && code != c.mxl then (c.(mxl := code, xlen := Width(code)), WidthChanged) else (c, Done)
    case 0x302 => (c.(medeleg := Merge(c.medeleg, bits, MEDELEG_MASK)), Done)
    case 0x303 => (c.(mideleg := Merge(c.mideleg, bits, MIDELEG_MASK)), Done)
    case 0x304 => (c.(mie := Merge(c.mie, bits, MIE_MASK)), Done)
    case 0x305 => (c.(m := c.m.(tvec := val)), Done)
    case 0x306 => (c.(m := c.m.(counteren := bits * {0, 2})), Done)
    case 0x340 => (c.(m := c.m.(scratch := val)), Done)
    case 0x341 => (c.(m := c.m.(epc := Even(val))), Done)
    case 0x342 => (c.(m := c.m.(cause := val)), Done)
    case 0x343 => (c.(m := c.m.(tval := val)), Done)
    case 0x344 => (c.(mip := Merge(c.mip, bits, {SSI, STI})), Done)
    case _ => (c, NoCsr)
  }

  datatype Option<T> = None | Some(value: T)

  /** get_mstatus: FS comes from `fs`, and the top bit of the current width summarises the
      dirty extensions. */
  function GetMstatus(c: Cpu, mask: set<nat>): set<nat> {
    var result := (c.mstatus + (if c.fp.fs <= 3 then Put(c.fp.fs, FS) else {})) * mask;
    if c.xlen >= 1 && (FS_MASK <= result || {15, 16} <= result) then result + {c.xlen - 1} else result
  }

  lemma WordIsPow()
    ensures Pow2(64) == WORD
  {
    Widths();
  }

  function AsWord(s: set<nat>): Word {
    WordIsPow();
    Number(s, 64)
  }

  const MISA: set<nat> := {18, 20, 8, 12, 0, 2, 5, 3}

  /** csr_read. Machine mode reads the cycle counters through a variable the code never
      sets there; `junk` is what it happens to hold. */
  function CsrRead(c: Cpu, csr: nat, willWrite: bool, junk: set<nat>): Option<Word> {
    if (csr / 0x400 % 4 == 3 && willWrite) || c.priv < csr / 0x100 % 4 then None
    else if csr < 0x100 then FloatValue(c, csr)
    else if csr < 0x300 then SupervisorValue(c, csr)
    else if csr < 0xB00 then MachineValue(c, csr)
    else CounterValue(c, csr, junk)
  }

  function FloatValue(c: Cpu, csr: nat): Option<Word> {
    match csr
    case 0x001 => if c.fp.fs == 0 then None else Some(c.fp.fflags)
    case 0x002 => if c.fp.fs == 0 then None else Some(c.fp.frm)
    case 0x003 => if c.fp.fs == 0 then None else Some(BitOr(c.fp.fflags, c.fp.frm * 32) % WORD)
    case _ => None
  }

  function SupervisorValue(c: Cpu, csr: nat): Option<Word> {
    match csr
    case 0x100 => Some(AsWord(GetMstatus(c, SSTATUS_MASK)))
    case 0x104 => Some(AsWord(c.mie * c.mideleg))
    case 0x105 => Some(c.s.tvec)
    case 0x106 => Some(AsWord(c.s.counteren))
    case 0x140 => Some(c.s.scratch)
    case 0x141 => Some(c.s.epc)
    case 0x142 => Some(c.s.cause)
    case 0x143 => Some(c.s.tval)
    case 0x144 => Some(AsWord(c.mip * c.mideleg))
    case 0x180 => Some(c.satp)
    case _ => None
  }

  function MachineValue(c: Cpu, csr: nat): Option<Word> {
    match csr
    case 0x300 => Some(AsWord(GetMstatus(c, ALL_BITS)))
    case 0x301 => if c.mxl <= 3 && 2 <= c.xlen <= 64 then Some(AsWord(MISA + Put(c.mxl, c.xlen - 2))) else None
    case 0x302 => Some(AsWord(c.medeleg))
    case 0x303 => Some(AsWord(c.mideleg))
    case 0x304 => Some(AsWord(c.mie))
    case 0x305 => Some(c.m.tvec)
    case 0x306 => Some(AsWord(c.m.counteren))
    case 0x340 => Some(c.m.scratch)
    case 0x341 => Some(c.m.epc)
    case 0x342 => Some(c.m.cause)
    case 0x343 => Some(c.m.tval)
    case 0x344 => Some(AsWord(c.mip))
    case _ => None
  }

  function CounterValue(c: Cpu, csr: nat, junk: set<nat>): Option<Word> {
    var counteren := if c.priv >= PRIV_M then junk else if c.priv < PRIV_S then c.s.counteren else c.m.counteren;
    match csr
    case 0xB00 => Some(c.cycles)
    case 0xB02 => Some(c.cycles)
    case 0xB80 => if c.xlen == 32 then Some(c.cycles / 0x1_0000_0000) else None
    case 0xB82 => if c.xlen == 32 then Some(c.cycles / 0x1_0000_0000) else None
    case 0xC00 => if 0 in counteren then Some(c.cycles) else None
    case 0xC02 => if 2 in counteren then Some(c.cycles) else None
    case 0xC80 => if c.xlen == 32 && 0 in counteren then Some(c.cycles / 0x1_0000_0000) else None
    case 0xC82 => if c.xlen == 32 && 2 in counteren then Some(c.cycles / 0x1_0000_0000) else None
    case 0xF11 => Some(0)
    case 0xF12 => Some(0)
    case 0xF13 => Some(0)
    case 0xF14 => Some(0)
    case _ => None
  }

  /** The unsigned `mtimecmp - now`, stored in an `int64_t`. */
  function TicksLeft(mtimecmp: Word, now: Word): (left: int)
    ensures left < 0x8000_0000_0000_0000
  {
    var d := (mtimecmp - now) % WORD;
    if d < 0x8000_0000_0000_0000 then d else d - WORD
  }

  /** cpu_state_reset. */
  const RESET := Cpu(
    0x1000, PRIV_M, 64, 2, {UXL + 1, SXL + 1}, {}, {}, {}, {},
    TrapRegs(0, 0, 0, 0, 0, {}), TrapRegs(0, 0, 0, 0, 0, {}), FloatRegs(0, 0, 0), 0, 0, Plic({}, {}), false)

  class Hart {
    var pc: Word
    var priv: nat
    var xlen: nat
    var mxl: nat
    var mstatus: set<nat>
    var mie: set<nat>
    var mip: set<nat>
    var medeleg: set<nat>
    var mideleg: set<nat>
    var m: TrapRegs
    var s: TrapRegs
    var fp: FloatRegs
    var satp: Word
    var cycles: Word
    var plic: Plic
    var powerDownFlag: bool

    function View(): Cpu
      reads this
    {
      Cpu(pc, priv, xlen, mxl, mstatus, mie, mip, medeleg, mideleg, m, s, fp, satp, cycles, plic, powerDownFlag)
    }

    constructor ()
      ensures View() == RESET
    {
      pc := 0x1000;
      xlen, mxl, priv := 64, 2, PRIV_M;
      mstatus := Put(2, UXL) + Put(2, SXL);
      mie, mip, medeleg, mideleg := {}, {}, {}, {};
      m, s := TrapRegs(0, 0, 0, 0, 0, {}), TrapRegs(0, 0, 0, 0, 0, {});
      fp, satp, cycles := FloatRegs(0, 0, 0), 0, 0;
      plic, powerDownFlag := Plic({}, {}), false;
    }

    method SetMip(mask: set<nat>)
      modifies this`mip, this`powerDownFlag
      ensures View() == WithMip(old(View()), old(mip) + mask)
    {
      mip := mip + mask;
      if powerDownFlag && mip * mie != {} {
        powerDownFlag := false;
      }
    }

    method ResetMip(mask: set<nat>)
      modifies this`mip
      ensures View() == old(View()).(mip := old(mip) - mask)
    {
      mip := mip - mask;
    }

    // ---------- the interrupt controller ----------

    method PlicUpdateMip()
      requires powerDownFlag ==> mip * mie == {}
      modifies this`mip, this`powerDownFlag
      ensures View() == Synced(old(View()))
    {
      var mask := plic.pending - plic.served;
      if mask != {} {
        SetMip({MEI, SEI});
      } else {
        ResetMip({MEI, SEI});
        assert powerDownFlag ==> mip * mie == {};
      }
    }

    method PlicSetIrq(irq: nat, flag: bool)
      requires 1 <= irq <= 32 && (powerDownFlag ==> mip * mie == {})
      modifies this`plic, this`mip, this`powerDownFlag
      ensures View() == LineSet(old(View()), irq, flag)
    {
      var mask := {irq - 1};
      if flag {
        plic := plic.(pending := plic.pending + mask);
      } else {
        plic := plic.(pending := plic.pending - mask);
      }
      PlicUpdateMip();
    }

    /** A four-byte read of the claim register. */
    method PlicClaim() returns (result: nat)
      requires (powerDownFlag ==> mip * mie == {}) && forall i :: i in plic.pending ==> i < 32
      modifies this`plic, this`mip, this`powerDownFlag
      ensures Claimed(old(View()), View(), result)
    {
      var mask := plic.pending - plic.served;
      if mask != {} {
        var i := Ctz32(mask);
        plic := plic.(served := plic.served + {i});
        PlicUpdateMip();
        result := i + 1;
      } else {
        result := 0;
      }
    }

    /** A four-byte write of the completion register. */
    method PlicComplete(written: nat)
      requires (powerDownFlag ==> mip * mie == {}) && written < 0x1_0000_0000
      modifies this`plic, this`mip, this`powerDownFlag
      ensures View() == Completed(old(View()), written)
    {
      var value := (written - 1) % 0x1_0000_0000;
      if value < 32 {
        plic := plic.(served := plic.served - {value});
        PlicUpdateMip();
      }
    }

    // ---------- CSRs ----------

    method SetMstatus(value: set<nat>)
      modifies this`fp, this`mstatus
      ensures View() == MstatusSet(old(View()), value)
    {
      fp := fp.(fs := Field(value, FS));
      var mask := MSTATUS_MASK - FS_MASK;
      var uxl := Field(value, UXL);
      if uxl >= 1 && uxl <= 2 {
        mask := mask + UXL_MASK;
      }
      var sxl := Field(value, UXL);
      if sxl >= 1 && sxl <= 2 {
        mask := mask + SXL_MASK;
      }
      assert mask == MstatusMask(value);
      mstatus := (mstatus - mask) + (value * mask);
    }

    method SetFrm(val: nat)
      requires val <= 7
      modifies this`fp
      ensures fp == old(fp).(frm := FrmOf(val))
    {
      fp := fp.(frm := if val >= 5 then 0 else val);
    }

    method SetPriv(p: nat)
      modifies this`priv, this`xlen
      ensures View() == old(View()).(priv := p, xlen := MovedWidth(old(priv), old(xlen), mstatus, mxl, p))
    {
      if priv != p {
        var code := if p == PRIV_S then Field(mstatus, SXL)
                    else if p == PRIV_U then Field(mstatus, UXL)
                    else mxl;
        xlen := Pow2(4 + code);
        priv := p;
      }
    }

    method CsrWrite(csr: nat, val: Word) returns (w: Written)
      requires csr == 0x301 ==> xlen >= 2
      modifies this
      ensures (View(), w) == CsrResult(old(View()), csr, val)
    {
      hide FloatWritten;
      hide SupervisorWritten;
      hide MachineWritten;
      hide Set;
      if csr < 0x100 {
        w := CsrWriteFloat(csr, val);
      } else if csr < 0x300 {
        w := CsrWriteSupervisor(csr, val);
      } else {
        w := CsrWriteMachine(csr, val);
      }
    }

    method CsrWriteFloat(csr: nat, val: Word) returns (w: Written)
      requires csr < 0x100
      modifies this`fp
      ensures (View(), w) == FloatWritten(old(View()), csr, val)
    {
      hide Set;
      w := Done;
      match csr {
        case 0x001 => fp := fp.(fflags := val % 32, fs := 3);
        case 0x002 =>
          SetFrm(val % 8);
          fp := fp.(fs := 3);
        case 0x003 =>
          SetFrm(val / 32 % 8);
          fp := fp.(fflags := val % 32, fs := 3);
        case _ => w := NoCsr;
      }
    }

    method CsrWriteSupervisor(csr: nat, val: Word) returns (w: Written)
      requires 0x100 <= csr < 0x300
      modifies this
      ensures (View(), w) == SupervisorWritten(old(View()), csr, val, Set(val, 64))
    {
      hide Set;
      hide MstatusSet;
      var bits := Set(val, 64);
      w := Done;
      match csr {
        case 0x100 => SetMstatus((mstatus - SSTATUS_MASK) + (bits * SSTATUS_MASK));
        case 0x104 => mie := (mie - mideleg) + (bits * mideleg);
        case 0x105 => s := s.(tvec := val);
        case 0x106 => s := s.(counteren := bits * {0, 2});
        case 0x140 => s := s.(scratch := val);
        case 0x141 => s := s.(epc := val - val % 2);
        case 0x142 => s := s.(cause := val);
        case 0x143 => s := s.(tval := val);
        case 0x144 => mip := (mip - mideleg) + (bits * mideleg);
        case 0x180 =>
          var mode := satp / 0x1000_0000_0000_0000;
          var newMode := val / 0x1000_0000_0000_0000;
          if newMode == 0 || (newMode >= 8 && newMode <= 9) {
            mode := newMode;
          }
          satp := val % 0x1000_0000_0000 + mode * 0x1000_0000_0000_0000;
          w := Refetch;
        case _ => w := NoCsr;
      }
    }

    method CsrWriteMachine(csr: nat, val: Word) returns (w: Written)
      requires 0x300 <= csr && (csr == 0x301 ==> xlen >= 2)
      modifies this
      ensures (View(), w) == MachineWritten(old(View()), csr, val, Set(val, 64))
    {
      hide Set;
      hide MstatusSet;
      hide Quot;
      hide Pow2;
      var bits := Set(val, 64);
      w := Done;
      match csr {
        case 0x300 => SetMstatus(bits);
        case 0x301 =>
          var newMxl := Quot(val, Pow2(xlen - 2)) % 4;
          if newMxl >= 1 && newMxl <= 2 {
            if mxl != newMxl {
              mxl := newMxl;
              xlen := Pow2(newMxl + 4);
              w := WidthChanged;
            }
          }
        case 0x302 => medeleg := (medeleg - MEDELEG_MASK) + (bits * MEDELEG_MASK);
        case 0x303 => mideleg := (mideleg - MIDELEG_MASK) + (bits * MIDELEG_MASK);
        case 0x304 => mie := (mie - MIE_MASK) + (bits * MIE_MASK);
        case 0x305 => m := m.(tvec := val);
        case 0x306 => m := m.(counteren := bits * {0, 2});
        case 0x340 => m := m.(scratch := val);
        case 0x341 => m := m.(epc := val - val % 2);
        case 0x342 => m := m.(cause := val);
        case 0x343 => m := m.(tval := val);
        case 0x344 => mip := (mip - {SSI, STI}) + (bits * {SSI, STI});
        case _ => w := NoCsr;
      }
    }

    /** The end of an instruction that computed its next pc and the floating-point status. */
    method Retire(next: Word, unit: FloatRegs)
      modifies this`pc, this`fp
      ensures View() == old(View()).(pc := next, fp := unit)
    {
      pc, fp := next, unit;
    }

    /** The end of a four-byte instruction. */
    method NextInstruction()
      modifies this`pc
      ensures View() == old(View()).(pc := (old(View()).pc + 4) % WORD)
    {
      pc := (pc + 4) % WORD;
    }

    // ---------- traps ----------

    method RaiseException(cause: Cause, tval: Word)
      requires cause.code < 32 && priv <= 3 && xlen in {16, 32, 64, 128}
      modifies this
      ensures Trapped(old(View()), View(), cause, tval)
    {
      hide BitOr;
      hide Pow2;
      hide Pushed;
      hide Target;
      hide CauseWord;
      hide MovedWidth;
      var deleg := false;
      if priv <= PRIV_S {
        if cause.Interrupt? {
          deleg := cause.code in mideleg;
        } else {
          deleg := cause.code in medeleg;
        }
      }
      var causel: nat := cause.code;
      CauseOr(xlen, cause);
      CauseFits(xlen, cause);
      if cause.Interrupt? {
        causel := BitOr(causel, Pow2(xlen - 1) % WORD);
      } else {
        BitOrZero(causel);
      }
      if deleg {
        EnterSupervisor(cause.Interrupt?, causel, tval);
      } else {
        EnterMachine(cause.Interrupt?, causel, tval);
      }
    }

    /** The branch of raise_exception taken when the trap is delegated. */
    method EnterSupervisor(interrupt: bool, causel: Word, tval: Word)
      requires priv <= 1
      modifies this
      ensures Pushed(old(mstatus), mstatus, old(priv), PRIV_S)
      ensures View() == old(View()).(
        s := old(s).(epc := old(pc), cause := causel, tval := tval), pc := Target(old(s).tvec, interrupt, causel),
        mstatus := mstatus, priv := PRIV_S, xlen := MovedWidth(old(priv), old(xlen), mstatus, mxl, PRIV_S))
    {
      hide Target;
      hide Pushed;
      hide MovedWidth;
      hide Put;
      s := s.(cause := causel, epc := pc, tval := tval);
      var status := mstatus - {SPIE} + (if priv in mstatus then {SPIE} else {});
      status := status - {SPP} + Put(priv, SPP);
      status := status - {1};
      PushS(mstatus, status, priv);
      mstatus := status;
      SetPriv(PRIV_S);
      pc := Target(s.tvec, interrupt, causel);
    }

    /** The other branch. */
    method EnterMachine(interrupt: bool, causel: Word, tval: Word)
      requires priv <= 3
      modifies this
      ensures Pushed(old(mstatus), mstatus, old(priv), PRIV_M)
      ensures View() == old(View()).(
        m := old(m).(epc := old(pc), cause := causel, tval := tval), pc := Target(old(m).tvec, interrupt, causel),
        mstatus := mstatus, priv := PRIV_M, xlen := MovedWidth(old(priv), old(xlen), mstatus, mxl, PRIV_M))
    {
      hide Target;
      hide Pushed;
      hide MovedWidth;
      hide Put;
      m := m.(cause := causel, epc := pc, tval := tval);
      var status := mstatus - {MPIE} + (if priv in mstatus then {MPIE} else {});
      status := status - {MPP, MPP + 1} + Put(priv, MPP);
      status := status - {3};
      PushM(mstatus, status, priv);
      mstatus := status;
      SetPriv(PRIV_M);
      pc := Target(m.tvec, interrupt, causel);
    }

    method GetPendingIrqMask() returns (mask: set<nat>)
      ensures forall i: nat :: i in mask <==> Takeable(View(), i)
    {
      var pendingInts := mie * mip;
      if pendingInts == {} {
        assert forall i: nat :: i !in pendingInts;
        return {};
      }
      mask := {};
      if priv == PRIV_M {
        if PRIV_M in mstatus {
          mask := pendingInts - mideleg;
        }
      } else if priv == PRIV_S {
        mask := pendingInts - mideleg;
        if PRIV_S in mstatus {
          mask := mask + (pendingInts * mideleg);
        }
      } else {
        mask := pendingInts;
      }
    }

    method RaiseInterrupt() returns (taken: bool)
      requires priv <= 3 && xlen in {16, 32, 64, 128} && forall i :: i in mie ==> i < 32
      modifies this
      ensures InterruptTaken(old(View()), View(), taken)
    {
      var mask := GetPendingIrqMask();
      if mask == {} {
        assert forall i: nat :: i !in mask;
        return false;
      }
      var i := 0;
      while i < 32
        invariant i <= 32
        invariant forall j: nat :: j < i ==> j !in mask
      {
        if i in mask {
          break;
        }
        i := i + 1;
      }
      assert forall j: nat :: j in mask ==> j in mie;
      RaiseException(Interrupt(i), 0);
      return true;
    }

    method HandleSret()
      modifies this
      ensures Returned(old(View()), View(), PRIV_S)
    {
      hide Popped;
      hide MovedWidth;
      var spp := if SPP in mstatus then 1 else 0;
      var spie := SPIE in mstatus;
      var status := mstatus - {spp} + (if spie then {spp} else {});
      status := status + {SPIE};
      status := status - {SPP};
      PopS(mstatus, status);
      mstatus := status;
      SetPriv(spp);
      pc := s.epc;
    }

    method HandleMret()
      modifies this
      ensures Returned(old(View()), View(), PRIV_M)
    {
      hide Popped;
      hide MovedWidth;
      var mpp := Field(mstatus, MPP);
      var mpie := MPIE in mstatus;
      var status := mstatus - {mpp} + (if mpie then {mpp} else {});
      status := status + {MPIE};
      status := status - {MPP, MPP + 1};
      PopM(mstatus, status);
      mstatus := status;
      SetPriv(mpp);
      pc := m.epc;
    }

    // ---------- sleeping ----------

    /** The part of WFI after its privilege checks. */
    method Wfi()
      modifies this`powerDownFlag, this`pc
      ensures var c := old(View());
        View() == c.(pc := (c.pc + 4) % WORD, sleeping := c.sleeping || c.mip * c.mie == {})
    {
      if mip * mie == {} {
        powerDownFlag := true;
      }
      pc := (pc + 4) % WORD;
    }

    /** machine_get_sleep_duration, `now` being the clock. */
    method SleepDuration(mtimecmp: Word, now: Word, delay: nat) returns (d: nat)
      modifies this`mip, this`powerDownFlag
      ensures View() == if MTI !in old(mip) && TicksLeft(mtimecmp, now) <= 0
                        then WithMip(old(View()), old(mip) + {MTI}) else old(View())
      ensures d <= delay && (d > 0 ==> powerDownFlag)
      ensures MTI !in mip ==> d * 10000 <= TicksLeft(mtimecmp, now)
    {
      d := delay;
      if MTI !in mip {
        var left := TicksLeft(mtimecmp, now);
        if left <= 0 {
          SetMip({MTI});
          d := 0;
        } else {
          var ms := left / 10000;
          if ms < d {
            d := ms;
          }
        }
      }
      if !powerDownFlag {
        d := 0;
      }
    }
  }
}
