/** The whole machine between two turns of its loop: decode_inst on the integer and
    floating-point state together with the hart it traps into (instructions.c:191-204, 286-2268). */
module Machine {
  import opened BitSets
  import opened Hart
  import opened HartRuns
  import C = Core
  import D = RvcDecode
  import R = Rvc
  import T = HartTraps
  import W = Words

  /** `cpu` holds pc and the floating-point status; the rest of the state instructions use is beside it. */
  datatype Machine = Machine(x: R.Regs, fp: R.Regs, loadRes: bv64, tval: bv64, cpu: Cpu)

  function StateOf(m: Machine): C.State {
    C.State(m.x, m.fp, m.cpu.fp, m.loadRes, m.tval, W.Reg(m.cpu.pc))
  }

  function WithState(m: Machine, s: C.State): Machine {
    Machine(s.x, s.fp, s.loadRes, s.tval, m.cpu.(pc := W.Num(s.pc), fp := s.unit))
  }

  ghost predicate Sound(m: Machine) {
    m.x(0) == 0 && Valid(m.cpu)
  }

  /** What an instruction comes to: an exception, or the machine after it. */
  datatype Verdict = Traps(cause: nat, tval: bv64) | Goes(next: Machine) | Returns(lvl: nat)

  function NextPc(c: Cpu): Cpu {
    c.(pc := (c.pc + 4) % WORD)
  }

  function Kind(op: bv32): CsrOp {
    if op == 1 then Swap else if op == 2 then SetBits else ClearBits
  }

  function CsrNumber(csr: bv32): nat {
    W.Num(csr as bv64)
  }

  const TW: nat := 21

  /** The instructions that belong to the hart. `junk` is what csr_read's uninitialised
      variable happens to hold. */
  function HartVerdict(m: Machine, a: R.Act, inst: bv32, junk: set<nat>): Verdict {
    var c := m.cpu;
    var illegal := Traps(2, inst as bv64);
    match a
    case Ecall => Traps(8 + c.priv, m.tval)
    case Return(lvl) => if c.priv < lvl then illegal else Returns(lvl)
    case Wait =>
      if c.priv == PRIV_U || (c.priv < PRIV_M && TW in c.mstatus) then illegal
      else Goes(m.(cpu := NextPc(c).(sleeping := c.sleeping || c.mip * c.mie == {})))
    case SyncTables => if c.priv == PRIV_U then illegal else Goes(m.(cpu := NextPc(c)))
    case Csr(csr, op, rd, operand, writes) =>
      (match CsrAccessed(c, CsrNumber(csr), Kind(op), W.Num(operand), writes, junk)
       case None => illegal
       case Some((was, t)) => Goes(m.(x := C.PutX(m.x, rd, W.Reg(was)), cpu := t.(pc := NextPc(c).pc))))
    case _ => illegal
  }

  function VerdictOf(m: Machine, inst: bv32, env: C.Env, junk: set<nat>): Verdict {
    match C.Executed(StateOf(m), inst, env)
    case Retired(s, _) => Goes(WithState(m, s))
    case Raised(s, cause) => Traps(cause, s.tval)
    case Deferred(a) => HartVerdict(m, a, inst, junk)
  }

  /** raise_exception with `pending_tval`. */
  ghost predicate Raises(m: Machine, cause: nat, tval: bv64, t: Machine)
    requires Valid(m.cpu) && cause < 32
  {
    ValidWidth(m.cpu);
    Trapped(m.cpu, t.cpu, Cause.Exception(cause), W.Num(tval)) && t == m.(tval := tval, cpu := t.cpu)
  }

  /** What a verdict leads to. */
  ghost predicate Comes(m: Machine, v: Verdict, t: Machine)
    requires Valid(m.cpu) && (v.Traps? ==> v.cause < 32)
  {
    match v
    case Traps(cause, tval) => Raises(m, cause, tval, t)
    case Goes(next) => t == next
    case Returns(lvl) => Returned(m.cpu, t.cpu, lvl) && t == m.(cpu := t.cpu)
  }

  /** decode_inst. */
  ghost predicate Executes(m: Machine, inst: bv32, env: C.Env, junk: set<nat>, t: Machine)
    requires Sound(m)
  {
    CausesFit(m, inst, env, junk);
    Comes(m, VerdictOf(m, inst, env, junk), t)
  }

  lemma StateSound(m: Machine)
    requires Sound(m)
    ensures C.Sound(StateOf(m))
  {
    W.EvenReg(m.cpu.pc);
    hide W.Reg;
    hide Width;
    hide Field;
  }

  lemma CausesFit(m: Machine, inst: bv32, env: C.Env, junk: set<nat>)
    requires Sound(m)
    ensures var v := VerdictOf(m, inst, env, junk);
      (v.Traps? ==> v.cause < 32) && (v.Returns? ==> v.lvl in {PRIV_S, PRIV_M} && m.cpu.priv >= v.lvl)
  {
    StateSound(m);
    C.StepKeepsSound(StateOf(m), inst, env);
    assert m.cpu.priv <= 3;
    hide Valid;
    var r := C.Executed(StateOf(m), inst, env);
    if r.Deferred? {
      HartCausesFit(m, r.act, inst, junk);
    }
    hide C.Executed;
    hide HartVerdict;
    hide StateOf;
    hide C.Sound;
  }

  lemma HartCausesFit(m: Machine, a: R.Act, inst: bv32, junk: set<nat>)
    requires m.cpu.priv <= 3
    ensures var v := HartVerdict(m, a, inst, junk);
      (v.Traps? ==> v.cause < 32) && (v.Returns? ==> a.Return? && v.lvl == a.lvl && m.cpu.priv >= v.lvl)
  {
    hide CsrAccessed;
    hide CsrNumber;
    hide W.Num;
    hide W.Reg;
  }

  // ---------- what every instruction keeps ----------

  lemma RetireKeeps(m: Machine, s: C.State)
    requires Valid(m.cpu) && C.Sound(s)
    ensures Sound(WithState(m, s))
  {
    W.EvenNum(s.pc);
    hide W.Num;
    hide Width;
    hide Field;
    hide SatpShape;
  }

  lemma HartKeeps(m: Machine, a: R.Act, inst: bv32, junk: set<nat>)
    requires Sound(m) && !m.cpu.sleeping && HartVerdict(m, a, inst, junk).Goes?
    ensures Sound(HartVerdict(m, a, inst, junk).next)
  {
    hide CsrNumber;
    hide W.Num;
    hide W.Reg;
    hide CsrAccessed;
    hide Valid;
    if a.Csr? {
      CsrKeeps(m.cpu, CsrNumber(a.csr), Kind(a.op), W.Num(a.operand), a.writes, junk);
      hide Kind;
    } else {
      PcKeepsValid(m.cpu);
      var c := NextPc(m.cpu);
      if a.Wait? {
        SleepKeeps(c, c.mip * c.mie == {});
      }
    }
  }

  lemma SleepKeeps(c: Cpu, asleep: bool)
    requires Valid(c) && (asleep ==> c.mip * c.mie == {})
    ensures Valid(c.(sleeping := asleep))
  {
    hide Width;
    hide Field;
    hide SatpShape;
  }

  lemma CsrKeeps(c: Cpu, csr: nat, op: CsrOp, operand: Word, writes: bool, junk: set<nat>)
    requires Valid(c) && !c.sleeping && CsrAccessed(c, csr, op, operand, writes, junk).Some?
    ensures var t := CsrAccessed(c, csr, op, operand, writes, junk).value.1; Valid(t.(pc := (c.pc + 4) % WORD))
  {
    hide Valid;
    hide CsrRead;
    hide CsrResult;
    hide CsrNew;
    if writes {
      var val := CsrNew(op, CsrRead(c, csr, true, junk).value, operand);
      ReadGuards(c, csr, junk);
      CsrKeepsValid(c, csr, val);
      RefusedUnchanged(c, csr, val);
      PcKeepsValid(CsrResult(c, csr, val).0);
    } else {
      PcKeepsValid(c);
    }
    hide Writable;
  }

  /** Every instruction, whatever it does, keeps register 0 zero and the hart's invariant, an
      even pc included. */
  lemma ExecuteKeeps(m: Machine, inst: bv32, env: C.Env, junk: set<nat>, t: Machine)
    requires Sound(m) && !m.cpu.sleeping && Executes(m, inst, env, junk, t)
    ensures Sound(t)
  {
    CausesFit(m, inst, env, junk);
    var v := VerdictOf(m, inst, env, junk);
    match v
    case Traps(cause, tval) =>
      hide VerdictOf;
      hide Valid;
      RaiseKeeps(m, cause, tval, t);
      hide Raises;
    case Goes(next) =>
      StateSound(m);
      C.StepKeepsSound(StateOf(m), inst, env);
      var r := C.Executed(StateOf(m), inst, env);
      hide C.Executed;
      hide C.Sound;
      hide Sound;
      hide StateOf;
      if r.Retired? {
        RetireKeeps(m, r.state);
      } else if r.Deferred? {
        HartKeeps(m, r.act, inst, junk);
      }
      hide HartVerdict;
      hide WithState;
    case Returns(lvl) =>
      hide VerdictOf;
      hide Valid;
      hide Returned;
      ReturnKeepsValid(m.cpu, t.cpu, lvl);
  }

  lemma RaiseKeeps(m: Machine, cause: nat, tval: bv64, t: Machine)
    requires Sound(m) && !m.cpu.sleeping && cause < 32 && Raises(m, cause, tval, t)
    ensures Sound(t)
  {
    hide Valid;
    hide Trapped;
    hide W.Num;
    ValidWidth(m.cpu);
    TrapKeepsValid(m.cpu, t.cpu, Cause.Exception(cause), W.Num(tval));
  }

  // ---------- precise traps ----------

  /** An instruction that raises an exception, an atomic whose write faults included, leaves
      both register files, the reservation, the floating-point status, the enabled and
      pending interrupts, the delegation, translation and the other mode's trap registers as
      they were. It enters supervisor mode exactly if medeleg has its cause and it was not in
      machine mode. The trap registers there get the pc of the instruction itself, its cause and
      its trap value, and pc becomes the vector base. */
  lemma PreciseTrap(m: Machine, inst: bv32, env: C.Env, junk: set<nat>, t: Machine)
    requires Sound(m) && Executes(m, inst, env, junk, t) && VerdictOf(m, inst, env, junk).Traps?
    ensures var v, c, d, lvl := VerdictOf(m, inst, env, junk), m.cpu, t.cpu, t.cpu.priv;
      && t.x == m.x && t.fp == m.fp && t.loadRes == m.loadRes && d.fp == c.fp && t.tval == v.tval
      && lvl == (if c.priv <= 1 && v.cause in c.medeleg then 1 else 3)
      && (lvl == 1 ==> d.s == c.s.(epc := c.pc, cause := v.cause, tval := W.Num(v.tval)) && d.m == c.m && d.pc == c.s.tvec / 4 * 4)
      && (lvl == 3 ==> d.m == c.m.(epc := c.pc, cause := v.cause, tval := W.Num(v.tval)) && d.s == c.s && d.pc == c.m.tvec / 4 * 4)
      && d == c.(pc := d.pc, priv := lvl, xlen := d.xlen, mstatus := d.mstatus, m := d.m, s := d.s)
      && StackedIn(c, d)
  {
    CausesFit(m, inst, env, junk);
    var v := VerdictOf(m, inst, env, junk);
    hide VerdictOf;
    ValidWidth(m.cpu);
    hide Valid;
    hide W.Num;
    hide Target;
    hide Width;
    hide Pushed;
    hide StackedIn;
    ExceptionIs(m.cpu, t.cpu, v.cause, W.Num(v.tval));
  }

  /** A trap whose handler only returns: the instruction is tried again on the state it first
      saw, at the same privilege and width. Only the pending trap value differs, and mstatus
      in the stack and the enable bit of the mode that handled the trap. */
  lemma RestartExact(m: Machine, inst: bv32, env: C.Env, junk: set<nat>, t: Machine, u: Machine)
    requires Sound(m) && Executes(m, inst, env, junk, t) && VerdictOf(m, inst, env, junk).Traps?
    requires Returned(t.cpu, u.cpu, t.cpu.priv) && u == t.(cpu := u.cpu)
    ensures StateOf(u) == StateOf(m).(tval := u.tval)
    ensures u.cpu.priv == m.cpu.priv && u.cpu.xlen == m.cpu.xlen
    ensures var lvl := t.cpu.priv;
      u.cpu.mstatus == m.cpu.mstatus - PpMask(lvl) - (if lvl == m.cpu.priv then {} else {lvl}) + {PieBit(lvl)}
  {
    CausesFit(m, inst, env, junk);
    PreciseTrap(m, inst, env, junk, t);
    var v := VerdictOf(m, inst, env, junk);
    hide VerdictOf;
    ValidWidth(m.cpu);
    var cause, tval := Cause.Exception(v.cause), W.Num(v.tval);
    T.TrapReturnExact(m.cpu, t.cpu, u.cpu, cause, tval);
    WidthBack(m.cpu, t.cpu, u.cpu, cause, tval);
    hide Valid;
    hide Trapped;
    hide W.Num;
    hide W.Reg;
  }

  lemma WidthBack(s: Cpu, a: Cpu, t: Cpu, cause: Cause, tval: Word)
    requires Valid(s) && cause.code < 32 && s.xlen in {16, 32, 64, 128}
    requires Trapped(s, a, cause, tval) && Returned(a, t, a.priv) && t.priv == s.priv
    ensures t.xlen == s.xlen
  {
    var lvl := a.priv;
    WidthFields(s.mstatus, a.mstatus, PpMask(lvl) + {PieBit(lvl), lvl});
    WidthFields(a.mstatus, t.mstatus, PpMask(lvl) + {PieBit(lvl), s.priv});
    hide Target;
    hide CauseWord;
    hide Width;
    hide Field;
  }

  // ---------- trap values ----------

  const ECALL: bv32 := 0x73
  const EBREAK: bv32 := 0x0010_0073

  /** ecall, ebreak, and c.ebreak whatever follows it. */
  predicate TrapWord(inst: bv32) {
    inst == ECALL || inst == EBREAK || inst & 0xFFFF == 0x9002
  }

  /** A trap instruction reports the trap value the last exception left, so it reports zero if
      and only if that is zero. */
  lemma TrapReports(m: Machine, inst: bv32, env: C.Env, junk: set<nat>)
    requires TrapWord(inst)
    ensures VerdictOf(m, inst, env, junk) == Traps(if inst == ECALL then 8 + m.cpu.priv else 3, m.tval)
    ensures W.Num(m.tval) == 0 <==> m.tval == 0
  {
    W.ZeroNum(m.tval);
    hide W.Num;
    hide VerdictOf;
    if inst == ECALL {
      EcallIs(m, env, junk);
    } else {
      BreakIs(m, inst, env, junk);
    }
  }

  lemma EcallIs(m: Machine, env: C.Env, junk: set<nat>)
    ensures VerdictOf(m, ECALL, env, junk) == Traps(8 + m.cpu.priv, m.tval)
  {
    EcallAct(m.x, W.Reg(m.cpu.pc), m.cpu.fp.fs != 0);
    hide R.BaseAct;
    hide C.Fetched;
    hide C.Length;
    hide W.Reg;
    hide R.Plus;
  }

  lemma BreakIs(m: Machine, inst: bv32, env: C.Env, junk: set<nat>)
    requires inst == EBREAK || inst & 0xFFFF == 0x9002
    ensures VerdictOf(m, inst, env, junk) == Traps(3, m.tval)
  {
    BreakWord(inst);
    BreakAct(m.x, W.Reg(m.cpu.pc), m.cpu.fp.fs != 0);
    hide R.BaseAct;
    hide C.Fetched;
    hide C.Length;
    hide W.Reg;
    hide R.Plus;
  }

  lemma EcallAct(x: R.Regs, pc: bv64, fpOn: bool)
    ensures C.Fetched(ECALL) == D.Some(ECALL) && R.BaseAct(x, pc, fpOn, ECALL) == R.Ecall
  {
    hide R.Plus;
    hide R.ImmAct;
    hide R.JumpRegAct;
    hide R.BranchAct;
  }

  lemma BreakAct(x: R.Regs, pc: bv64, fpOn: bool)
    ensures R.BaseAct(x, pc, fpOn, EBREAK) == R.BREAKPOINT
  {
    hide R.Plus;
    hide R.ImmAct;
    hide R.JumpRegAct;
    hide R.BranchAct;
  }

  lemma BreakWord(inst: bv32)
    requires inst == EBREAK || inst & 0xFFFF == 0x9002
    ensures C.Fetched(inst) == D.Some(EBREAK)
  {
    if inst & 0xFFFF == 0x9002 {
      BreakFields(inst);
      hide D.Funct;
      hide R.P;
      hide R.CRd;
      hide R.CRs2;
      hide R.EncI;
      hide R.EncR;
      hide R.EncS;
    }
  }

  lemma BreakFields(inst: bv32)
    requires inst & 0xFFFF == 0x9002
    ensures D.Quadrant(inst) == 2 && D.Funct(inst) == 4 && R.P(inst, 12, 12, 0) == 1
    ensures R.CRd(inst) == 0 && R.CRs2(inst) == 0
  {
    Break0(inst);
    Break1(inst);
    Break2(inst);
    Break3(inst);
    Break4(inst);
    hide R.P;
    hide R.CRd;
    hide R.CRs2;
    hide D.Quadrant;
    hide D.Funct;
  }

  lemma Break0(inst: bv32)
    requires inst & 0xFFFF == 0x9002
    ensures D.Quadrant(inst) == 2
  {
  }

  lemma Break1(inst: bv32)
    requires inst & 0xFFFF == 0x9002
    ensures D.Funct(inst) == 4
  {
  }

  lemma Break2(inst: bv32)
    requires inst & 0xFFFF == 0x9002
    ensures R.P(inst, 12, 12, 0) == 1
  {
  }

  lemma Break3(inst: bv32)
    requires inst & 0xFFFF == 0x9002
    ensures R.CRd(inst) == 0
  {
  }

  lemma Break4(inst: bv32)
    requires inst & 0xFFFF == 0x9002
    ensures R.CRs2(inst) == 0
  {
  }

  // ---------- histories ----------

  /** One turn of the machine loop, or something outside the hart. */
  datatype Step =
    | Execute(inst: bv32, env: C.Env, junk: set<nat>)
    | FetchFault(cause: C.FaultCode, addr: bv64)
    | Outside(event: Event)

  ghost predicate StepTo(m: Machine, step: Step, t: Machine)
    requires Sound(m)
  {
    match step
    case Execute(inst, env, junk) => !m.cpu.sleeping && Executes(m, inst, env, junk, t)
    case FetchFault(cause, addr) => !m.cpu.sleeping && Raises(m, cause, addr, t)
    case Outside(e) =>
      && (e.Line? || e.Claim? || e.Complete? || e.TimerDue? || e.TimerMoved? || e.Poll?)
      && Next(m.cpu, e, t.cpu) && t == m.(cpu := t.cpu)
  }

  ghost predicate History(ms: seq<Machine>, steps: seq<Step>) {
    && |ms| == |steps| + 1
    && Sound(ms[0])
    && forall k :: 0 <= k < |steps| ==> Sound(ms[k]) ==> StepTo(ms[k], steps[k], ms[k + 1])
  }

  lemma StepKeeps(m: Machine, step: Step, t: Machine)
    requires Sound(m) && StepTo(m, step, t)
    ensures Sound(t)
  {
    hide Valid;
    hide Executes;
    hide Raises;
    match step
    case Execute(inst, env, junk) => ExecuteKeeps(m, inst, env, junk, t);
    case FetchFault(cause, addr) => RaiseKeeps(m, cause, addr, t);
    case Outside(e) => StepKeepsValid(m.cpu, e, t.cpu);
  }

  /** In every history, register 0 is zero and the hart's invariant holds at every step. */
  lemma {:induction false} HistorySound(ms: seq<Machine>, steps: seq<Step>, k: nat)
    requires History(ms, steps) && k < |ms|
    ensures Sound(ms[k])
    decreases k
  {
    hide Sound;
    hide StepTo;
    if k > 0 {
      HistorySound(ms, steps, k - 1);
      StepKeeps(ms[k - 1], steps[k - 1], ms[k]);
    }
  }

  /** The trap value of the exception a step raises, if it raises one. */
  function TrapValue(m: Machine, step: Step): D.Option<bv64> {
    match step
    case Execute(inst, env, junk) =>
      var v := VerdictOf(m, inst, env, junk); if v.Traps? then D.Some(v.tval) else D.None
    case FetchFault(_, addr) => D.Some(addr)
    case Outside(_) => D.None
  }

  /** The pending trap value changes exactly with the exceptions raised. */
  lemma TvalStep(m: Machine, step: Step, t: Machine)
    requires Sound(m) && StepTo(m, step, t)
    ensures t.tval == match TrapValue(m, step) case Some(v) => v case None => m.tval
  {
    if step.Execute? {
      CausesFit(m, step.inst, step.env, step.junk);
      GoesKeepsTval(m, step.inst, step.env, step.junk);
    }
    hide Valid;
    hide VerdictOf;
    hide Trapped;
    hide Next;
    hide Returned;
    hide W.Num;
  }

  lemma GoesKeepsTval(m: Machine, inst: bv32, env: C.Env, junk: set<nat>)
    requires Sound(m)
    ensures var v := VerdictOf(m, inst, env, junk); v.Goes? ==> v.next.tval == m.tval
  {
    StateSound(m);
    C.StepKeepsSound(StateOf(m), inst, env);
    var r := C.Executed(StateOf(m), inst, env);
    hide C.Executed;
    hide C.Sound;
    hide Sound;
    if r.Deferred? {
      HartKeepsTval(m, r.act, inst, junk);
    }
    hide HartVerdict;
    hide W.Num;
    hide W.Reg;
  }

  lemma HartKeepsTval(m: Machine, a: R.Act, inst: bv32, junk: set<nat>)
    ensures var v := HartVerdict(m, a, inst, junk); v.Goes? ==> v.next.tval == m.tval
  {
    hide CsrAccessed;
    hide CsrNumber;
    hide W.Num;
    hide W.Reg;
  }

  /** No step in a range raises an exception. */
  ghost predicate Quiet(ms: seq<Machine>, steps: seq<Step>, lo: nat, hi: nat)
    requires |ms| == |steps| + 1 && hi <= |steps|
  {
    forall j :: lo <= j < hi ==> TrapValue(ms[j], steps[j]) == D.None
  }

  lemma {:induction false} QuietKeepsTval(ms: seq<Machine>, steps: seq<Step>, lo: nat, hi: nat)
    requires History(ms, steps) && |ms| == |steps| + 1 && lo <= hi <= |steps| && Quiet(ms, steps, lo, hi)
    ensures ms[hi].tval == ms[lo].tval
    decreases hi
  {
    hide History;
    hide TrapValue;
    if lo < hi {
      QuietKeepsTval(ms, steps, lo, hi - 1);
      StepInHistory(ms, steps, hi - 1);
    }
  }

  lemma StepInHistory(ms: seq<Machine>, steps: seq<Step>, k: nat)
    requires History(ms, steps) && |ms| == |steps| + 1 && k < |steps|
    ensures ms[k + 1].tval == match TrapValue(ms[k], steps[k]) case Some(v) => v case None => ms[k].tval
  {
    HistorySound(ms, steps, k);
    assert StepTo(ms[k], steps[k], ms[k + 1]);
    hide *;
    TvalStep(ms[k], steps[k], ms[k + 1]);
  }

  /** The last exception before step `k`, if there is one. */
  lemma {:induction false} LastException(ms: seq<Machine>, steps: seq<Step>, k: nat) returns (i: int)
    requires |ms| == |steps| + 1 && k <= |steps|
    ensures -1 <= i < k && Quiet(ms, steps, i + 1, k) && (i >= 0 ==> TrapValue(ms[i], steps[i]).Some?)
    decreases k
  {
    hide TrapValue;
    if k == 0 {
      i := -1;
    } else if TrapValue(ms[k - 1], steps[k - 1]).Some? {
      i := k - 1;
    } else {
      i := LastException(ms, steps, k - 1);
    }
  }

  /** There was no exception before step `k`, or the last one's trap value was zero. */
  ghost predicate LastWasZero(ms: seq<Machine>, steps: seq<Step>, k: nat)
    requires |ms| == |steps| + 1 && k <= |steps|
  {
    Quiet(ms, steps, 0, k)
    || exists i :: 0 <= i < k && TrapValue(ms[i], steps[i]) == D.Some(0) && Quiet(ms, steps, i + 1, k)
  }

  lemma LastDecides(ms: seq<Machine>, steps: seq<Step>, k: nat, i: nat)
    requires |ms| == |steps| + 1 && i < k <= |steps|
    requires TrapValue(ms[i], steps[i]).Some? && Quiet(ms, steps, i + 1, k)
    ensures LastWasZero(ms, steps, k) <==> TrapValue(ms[i], steps[i]) == D.Some(0)
  {
    hide TrapValue;
    assert !Quiet(ms, steps, 0, k);
    forall j | 0 <= j < k && TrapValue(ms[j], steps[j]) == D.Some(0) && Quiet(ms, steps, j + 1, k)
      ensures j == i
    {
    }
  }

  /** In every history from a state whose trap value is zero, a trap instruction reports zero
      if and only if there was no exception before it, or the last one's trap value was zero. */
  lemma ZeroReportedIff(ms: seq<Machine>, steps: seq<Step>, k: nat, inst: bv32, env: C.Env, junk: set<nat>)
    requires History(ms, steps) && |ms| == |steps| + 1 && ms[0].tval == 0 && k <= |steps| && TrapWord(inst)
    ensures var v := VerdictOf(ms[k], inst, env, junk); v.Traps? && (v.tval == 0 <==> LastWasZero(ms, steps, k))
  {
    hide *;
    TrapReports(ms[k], inst, env, junk);
    var i := LastException(ms, steps, k);
    QuietKeepsTval(ms, steps, i + 1, k);
    if i >= 0 {
      StepInHistory(ms, steps, i);
      LastDecides(ms, steps, k, i);
    } else {
      NoneIsZero(ms, steps, k);
    }
  }

  lemma NoneIsZero(ms: seq<Machine>, steps: seq<Step>, k: nat)
    requires |ms| == |steps| + 1 && k <= |steps| && Quiet(ms, steps, 0, k)
    ensures LastWasZero(ms, steps, k)
  {
    hide Quiet;
  }

  const AT_RESET: Machine := Machine(_ => 0, _ => 0, 0, 0, RESET)

  /** The first instruction. */
  ghost predicate AfterReset(inst: bv32, env: C.Env, junk: set<nat>, t: Machine) {
    ResetValid();
    Executes(AT_RESET, inst, env, junk, t)
  }

  /** From reset, an all-zero halfword followed by another and then an ecall: the ecall reports
      the refused word. */
  lemma StaleExample(env: C.Env, junk: set<nat>, t: Machine, env': C.Env, junk': set<nat>)
    requires AfterReset(0x1234_0000, env, junk, t)
    ensures VerdictOf(t, ECALL, env', junk') == Traps(8 + t.cpu.priv, 0x1234_0000)
  {
    ResetValid();
    C.RefusalReportsExample(StateOf(AT_RESET), env);
    assert VerdictOf(AT_RESET, 0x1234_0000, env, junk) == Traps(2, 0x1234_0000);
    PreciseTrap(AT_RESET, 0x1234_0000, env, junk, t);
    TrapReports(t, ECALL, env', junk');
    hide Executes;
    hide VerdictOf;
  }

  // ---------- reservations ----------

  function ActIn(m: Machine, inst: bv32): R.Act {
    C.ActOf(StateOf(m), C.Fetched(inst))
  }

  /** The step is a load-reserved of `addr` that does not fault. */
  predicate Reserves(m: Machine, step: Step, addr: bv64) {
    step.Execute? && step.env.first.Done? && var a := ActIn(m, step.inst); a.LoadReserved? && a.addr == addr
  }

  /** The step is a store-conditional to `addr` that stores. */
  predicate StoresTo(m: Machine, step: Step, addr: bv64) {
    && step.Execute? && step.env.first.Done? && m.loadRes == addr
    && var a := ActIn(m, step.inst); a.StoreConditional? && a.addr == addr
  }

  lemma HartKeepsReservation(m: Machine, a: R.Act, inst: bv32, junk: set<nat>)
    ensures var v := HartVerdict(m, a, inst, junk); v.Goes? ==> v.next.loadRes == m.loadRes
  {
    hide CsrAccessed;
    hide CsrNumber;
    hide W.Num;
    hide W.Reg;
  }

  lemma Reservation(m: Machine, inst: bv32, env: C.Env, junk: set<nat>, t: Machine)
    requires Sound(m) && Executes(m, inst, env, junk, t)
    ensures var a := ActIn(m, inst);
      t.loadRes == if a.LoadReserved? && env.first.Done? then a.addr
                   else if a.StoreConditional? && a.addr == m.loadRes && env.first.Done? then 0
                   else m.loadRes
  {
    var s, a := StateOf(m), ActIn(m, inst);
    CausesFit(m, inst, env, junk);
    C.ReservationAfter(s, a, inst, C.Length(inst), env);
    var r := C.Executed(s, inst, env);
    assert r == C.Perform(s, a, inst, C.Length(inst), env);
    if r.Deferred? {
      HartKeepsReservation(m, r.act, inst, junk);
    }
    hide Valid;
    hide C.Executed;
    hide C.Perform;
    hide HartVerdict;
    hide ActIn;
    hide W.Reg;
    hide W.Num;
    hide Trapped;
  }

  /** The reserved address changes with a load-reserved, and is cleared by a store-conditional
      that stores; nothing else touches it. */
  lemma ReservationStep(m: Machine, step: Step, t: Machine)
    requires Sound(m) && StepTo(m, step, t)
    ensures t.loadRes == m.loadRes || Reserves(m, step, t.loadRes) || (t.loadRes == 0 && StoresTo(m, step, m.loadRes))
    ensures StoresTo(m, step, m.loadRes) ==> t.loadRes == 0
    ensures forall addr :: Reserves(m, step, addr) ==> t.loadRes == addr
  {
    hide Valid;
    hide Next;
    hide ActIn;
    hide Trapped;
    if step.Execute? {
      Reservation(m, step.inst, step.env, step.junk, t);
      hide Executes;
    }
  }

  /** Where a reservation comes from: a load-reserved of its address, with no other
      load-reserved and no storing store-conditional since. */
  ghost predicate ReservedAt(ms: seq<Machine>, steps: seq<Step>, i: nat, k: nat)
    requires |ms| == |steps| + 1 && i < k < |ms|
  {
    && Reserves(ms[i], steps[i], ms[k].loadRes)
    && forall j, b :: i < j < k ==> !StoresTo(ms[j], steps[j], b)
  }

  lemma {:induction false} ReservationOrigin(ms: seq<Machine>, steps: seq<Step>, k: nat) returns (i: nat)
    requires History(ms, steps) && |ms| == |steps| + 1 && ms[0].loadRes == 0 && k < |ms| && ms[k].loadRes != 0
    ensures i < k && ReservedAt(ms, steps, i, k)
    decreases k
  {
    hide *;
    LastStep(ms, steps, k - 1);
    if Reserves(ms[k - 1], steps[k - 1], ms[k].loadRes) {
      i := k - 1;
      AtOnce(ms, steps, i);
    } else {
      i := ReservationOrigin(ms, steps, k - 1);
      StillReserved(ms, steps, i, k - 1);
    }
  }

  lemma AtOnce(ms: seq<Machine>, steps: seq<Step>, i: nat)
    requires |ms| == |steps| + 1 && i < |steps| && Reserves(ms[i], steps[i], ms[i + 1].loadRes)
    ensures ReservedAt(ms, steps, i, i + 1)
  {
    hide Reserves;
    hide StoresTo;
  }

  lemma StillReserved(ms: seq<Machine>, steps: seq<Step>, i: nat, k: nat)
    requires |ms| == |steps| + 1 && i < k < |steps| && ReservedAt(ms, steps, i, k)
    requires ms[k].loadRes == ms[k + 1].loadRes && forall b :: !StoresTo(ms[k], steps[k], b)
    ensures ReservedAt(ms, steps, i, k + 1)
  {
    hide Reserves;
    hide StoresTo;
  }

  /** A reservation was made by the last step, or was there before it and survived. */
  lemma LastStep(ms: seq<Machine>, steps: seq<Step>, k: nat)
    requires History(ms, steps) && k < |steps| && ms[k + 1].loadRes != 0
    ensures || Reserves(ms[k], steps[k], ms[k + 1].loadRes)
            || (ms[k].loadRes == ms[k + 1].loadRes && forall b :: !StoresTo(ms[k], steps[k], b))
  {
    HistorySound(ms, steps, k);
    assert StepTo(ms[k], steps[k], ms[k + 1]);
    hide *;
    ReservationStep(ms[k], steps[k], ms[k + 1]);
    StoreUsesReservation(ms[k], steps[k]);
  }

  lemma StoreUsesReservation(m: Machine, step: Step)
    ensures forall b :: StoresTo(m, step, b) ==> b == m.loadRes
  {
  }

  /** In every history from a state without reservation, a store-conditional that stores to a
      nonzero address follows a load-reserved of that address, with no other store-conditional
      storing in between. */
  lemma StoreWasReserved(ms: seq<Machine>, steps: seq<Step>, k: nat, addr: bv64) returns (i: nat)
    requires History(ms, steps) && ms[0].loadRes == 0 && k < |steps| && StoresTo(ms[k], steps[k], addr) && addr != 0
    ensures i < k && Reserves(ms[i], steps[i], addr)
    ensures forall j, b :: i < j < k ==> !StoresTo(ms[j], steps[j], b)
  {
    i := ReservationOrigin(ms, steps, k);
  }

  const SC_AT_ZERO: bv32 := 0x1800_202F

  /** Address 0 is the exception: with no load-reserved ever executed, sc.w x0, x0, (x0) stores. */
  lemma UnreservedStoreExample(m: Machine, env: C.Env, junk: set<nat>)
    requires Sound(m) && m.loadRes == 0 && env.first.Done?
    ensures StoresTo(m, Step.Execute(SC_AT_ZERO, env, junk), 0)
    ensures var r := C.Executed(StateOf(m), SC_AT_ZERO, env); r.Retired? && r.stored == D.Some(C.Stored(0, 4, 0))
  {
    ScAct(m.x, W.Reg(m.cpu.pc), m.cpu.fp.fs != 0);
    hide Valid;
    hide R.BaseAct;
    hide W.Reg;
    hide R.Plus;
  }

  lemma ScAct(x: R.Regs, pc: bv64, fpOn: bool)
    ensures C.Fetched(SC_AT_ZERO) == D.Some(SC_AT_ZERO)
    ensures R.BaseAct(x, pc, fpOn, SC_AT_ZERO) == R.StoreConditional(0, x(0), 4, x(0))
  {
    hide R.Plus;
    hide R.ImmAct;
    hide R.JumpRegAct;
    hide R.BranchAct;
  }

  /** A store-conditional ends the reservation only by using it: after one that did not fault
      there is none if and only if it stored or there was none before. */
  lemma FailedScKeeps(m: Machine, inst: bv32, env: C.Env, junk: set<nat>, t: Machine)
    requires Sound(m) && Executes(m, inst, env, junk, t) && ActIn(m, inst).StoreConditional? && env.first.Done?
    ensures t.loadRes == 0 <==> ActIn(m, inst).addr == m.loadRes || m.loadRes == 0
  {
    Reservation(m, inst, env, junk, t);
    hide ActIn;
    hide Executes;
    hide Sound;
  }

  /** Registers at reset, with a reservation at 8. */
  const RESERVED: Machine := Machine(_ => 0, _ => 0, 8, 0, RESET)

  /** sc.w x0, x0, (x0) there: nothing is stored, and the reservation stands. */
  lemma FailedScExample(env: C.Env, junk: set<nat>)
    ensures Sound(RESERVED)
    ensures var r := C.Executed(StateOf(RESERVED), SC_AT_ZERO, env); r.Retired? && r.stored == D.None
    ensures var v := VerdictOf(RESERVED, SC_AT_ZERO, env, junk); v.Goes? && v.next.loadRes == 8
  {
    ResetValid();
    var m := RESERVED;
    ScAct(m.x, W.Reg(m.cpu.pc), m.cpu.fp.fs != 0);
    hide Valid;
    hide R.BaseAct;
    hide C.Fetched;
    hide C.Length;
    hide W.Reg;
    hide W.Num;
    hide R.Plus;
  }

  // ---------- the emulator ----------

  function StateIn(s: C.State, c: Cpu): Machine {
    Machine(s.x, s.fp, s.loadRes, s.tval, c)
  }

  /** What the instruction part of a step leaves to do. */
  lemma StepOutcome(m: Machine, inst: bv32, env: C.Env, junk: set<nat>, s: C.State, o: C.Outcome)
    requires Sound(m) && C.Matches(StateOf(m), C.Executed(StateOf(m), inst, env), s, o)
    ensures var v := VerdictOf(m, inst, env, junk);
      (v.Traps? ==> v.cause < 32) &&
      match o
      case Completed(_) => v == Goes(WithState(m, s))
      case Exception(cause) => v == Traps(cause, s.tval) && s == StateOf(m).(tval := s.tval)
      case LeftToHart(a) =>
        && v == HartVerdict(m, a, inst, junk) && s == StateOf(m)
        && (a.Ecall? || (a.Return? && a.lvl in {PRIV_S, PRIV_M}) || a.Wait? || a.SyncTables? || a.Csr?)
  {
    CausesFit(m, inst, env, junk);
    StateSound(m);
    C.StepKeepsSound(StateOf(m), inst, env);
    hide Valid;
    hide C.Sound;
    hide C.Executed;
    hide HartVerdict;
    hide W.Reg;
    hide W.Num;
  }

  lemma RaisedAfter(m: Machine, cause: nat, tval: bv64, u: Machine, t: Machine)
    requires Valid(m.cpu) && cause < 32 && u == m.(tval := tval) && Raises(u, cause, tval, t)
    ensures Comes(m, Traps(cause, tval), t)
  {
    hide Trapped;
    hide Valid;
    hide W.Num;
  }

  lemma Went(m: Machine, inst: bv32, env: C.Env, junk: set<nat>, t: Machine)
    requires Sound(m) && VerdictOf(m, inst, env, junk) == Goes(t)
    ensures Executes(m, inst, env, junk, t)
  {
    hide VerdictOf;
    hide Sound;
  }

  lemma Executed(m: Machine, inst: bv32, env: C.Env, junk: set<nat>, t: Machine)
    requires Sound(m)
    requires var v := VerdictOf(m, inst, env, junk); (v.Traps? ==> v.cause < 32) && Comes(m, v, t)
    ensures Executes(m, inst, env, junk, t)
  {
    hide Comes;
    hide VerdictOf;
    hide Sound;
  }


  /** `cpu_state`: the instruction state and the hart. */
  class Emulator {
    const core: C.Interpreter
    const hart: Hart

    function View(): Machine
      reads this, core, hart
    {
      StateIn(core.View(), hart.View())
    }

    /** pc and the floating-point status are in both parts. */
    ghost predicate Linked()
      reads this, core, hart
    {
      core.View() == StateOf(View())
    }

    constructor (core: C.Interpreter, hart: Hart)
      ensures this.core == core && this.hart == hart
    {
      this.core, this.hart := core, hart;
    }

    /** The instruction part catches up with the hart. */
    method Catch()
      modifies core
      ensures View() == old(View()) && Linked()
    {
      hide C.Interpreter.View;
      hide Hart.View;
      core.Resume(W.Reg(hart.View().pc), hart.View().fp);
    }

    /** The end of decode_inst that raises the pending exception. */
    method Raise(cause: nat, tval: bv64)
      requires Valid(hart.View()) && cause < 32
      modifies core, hart
      ensures Raises(old(View()), cause, tval, View()) && Linked()
    {
      hide C.Interpreter.View;
      hide Hart.View;
      hide Valid;
      hide Trapped;
      hide W.Reg;
      hide W.Num;
      ValidWidth(hart.View());
      PrivBound(hart.View());
      core.SetTval(tval);
      RaiseInHart(cause, W.Num(tval));
      Catch();
    }

    method RaiseInHart(cause: nat, tval: Word)
      requires cause < 32 && hart.View().priv <= 3 && hart.View().xlen in {16, 32, 64, 128}
      modifies hart
      ensures Trapped(old(hart.View()), hart.View(), Cause.Exception(cause), tval)
    {
      hide Trapped;
      hart.RaiseException(Cause.Exception(cause), tval);
    }

    method TrapReturn(lvl: nat)
      requires lvl in {PRIV_S, PRIV_M}
      modifies hart
      ensures Returned(old(hart.View()), hart.View(), lvl)
    {
      hide Returned;
      if lvl == PRIV_S {
        hart.HandleSret();
      } else {
        hart.HandleMret();
      }
    }

    method CsrInst(csr: bv32, op: bv32, rd: bv32, operand: bv64, writes: bool, inst: bv32, junk: set<nat>)
      requires Valid(hart.View()) && !hart.View().sleeping
      modifies core, hart
      ensures Linked()
      ensures var v := HartVerdict(old(View()), R.Csr(csr, op, rd, operand, writes), inst, junk);
        (v.Traps? ==> v.cause < 32) && Comes(old(View()), v, View())
    {
      hide C.Interpreter.View;
      hide Hart.View;
      hide Valid;
      hide Comes;
      hide HartVerdict;
      hide Next;
      hide W.Reg;
      hide W.Num;
      hide CsrNumber;
      hide CsrAccessed;
      var read := CsrAccess(hart, CsrNumber(csr), Kind(op), W.Num(operand), writes, W.Num(inst as bv64), junk);
      if read.Some? {
        core.WriteX(rd, W.Reg(read.value));
      } else {
        core.SetTval(inst as bv64);
      }
      CsrComes(old(View()), csr, op, rd, operand, writes, inst, junk, View());
      Catch();
    }

    /** The instructions that belong to the hart. */
    method HartInst(a: R.Act, inst: bv32, junk: set<nat>)
      requires Valid(hart.View()) && !hart.View().sleeping
      requires a.Ecall? || (a.Return? && a.lvl in {PRIV_S, PRIV_M}) || a.Wait? || a.SyncTables? || a.Csr?
      modifies core, hart
      ensures Linked()
      ensures var v := HartVerdict(old(View()), a, inst, junk);
        (v.Traps? ==> v.cause < 32) && Comes(old(View()), v, View())
    {
      hide C.Interpreter.View;
      hide Hart.View;
      hide Valid;
      hide Comes;
      hide HartVerdict;
      if a.Csr? {
        CsrInst(a.csr, a.op, a.rd, a.operand, a.writes, inst, junk);
      } else {
        SystemInst(a, inst, junk);
      }
    }

    method SystemInst(a: R.Act, inst: bv32, junk: set<nat>)
      requires Valid(hart.View()) && !hart.View().sleeping
      requires a.Ecall? || (a.Return? && a.lvl in {PRIV_S, PRIV_M}) || a.Wait? || a.SyncTables?
      modifies core, hart
      ensures Linked()
      ensures var v := HartVerdict(old(View()), a, inst, junk);
        (v.Traps? ==> v.cause < 32) && Comes(old(View()), v, View())
    {
      hide C.Interpreter.View;
      hide Hart.View;
      hide Valid;
      hide Raises;
      hide Returned;
      hide W.Reg;
      hide W.Num;
      hide HartVerdict;
      hide Denied;
      hide Linked;
      hide NextPc;
      PrivBound(hart.View());
      SystemIs(View(), a, inst, junk);
      var c := hart.View();
      if a.Ecall? {
        Raise(8 + c.priv, core.View().tval);
      } else if Denied(c, a) {
        Raise(2, inst as bv64);
      } else if a.Return? {
        TrapReturn(a.lvl);
        Catch();
      } else {
        Pause(a.Wait?);
      }
    }

    /** wfi or sfence.vma. */
    method Pause(wait: bool)
      modifies core, hart
      ensures Linked()
      ensures var m := old(View());
        View() == m.(cpu := if wait then NextPc(m.cpu).(sleeping := m.cpu.sleeping || m.cpu.mip * m.cpu.mie == {})
                            else NextPc(m.cpu))
    {
      hide C.Interpreter.View;
      hide Hart.View;
      if wait {
        hart.Wfi();
      } else {
        hart.NextInstruction();
      }
      Catch();
    }

    method DecodeInst(inst: bv32, env: C.Env, junk: set<nat>)
      requires Linked() && Sound(View()) && !hart.View().sleeping
      modifies core, hart
      ensures Linked() && Executes(old(View()), inst, env, junk, View())
    {
      hide C.Interpreter.View;
      hide Hart.View;
      hide C.Executed;
      hide C.Matches;
      hide HartVerdict;
      hide VerdictOf;
      hide Comes;
      hide Executes;
      hide Raises;
      hide Sound;
      hide Valid;
      hide W.Reg;
      hide W.Num;
      ghost var m := View();
      SoundMeans(m);
      var o := core.Step(inst, env);
      StepOutcome(m, inst, env, junk, core.View(), o);
      match o {
        case Completed(_) =>
          W.RegOfNum(core.View().pc);
          hart.Retire(W.Num(core.View().pc), core.View().unit);
          Went(m, inst, env, junk, View());
        case Exception(cause) =>
          var tval := core.View().tval;
          ghost var u := View();
          Raise(cause, tval);
          RaisedAfter(m, cause, tval, u, View());
          Executed(m, inst, env, junk, View());
        case LeftToHart(a) =>
          HartInst(a, inst, junk);
          Executed(m, inst, env, junk, View());
      }
    }
  }

  /** The privilege checks of sret, mret, wfi and sfence.vma. */
  predicate Denied(c: Cpu, a: R.Act) {
    || (a.Return? && c.priv < a.lvl)
    || (!a.Return? && c.priv == PRIV_U)
    || (a.Wait? && c.priv < PRIV_M && TW in c.mstatus)
  }

  lemma SystemIs(m: Machine, a: R.Act, inst: bv32, junk: set<nat>)
    requires a.Ecall? || a.Return? || a.Wait? || a.SyncTables?
    ensures var v, c := HartVerdict(m, a, inst, junk), m.cpu;
      if a.Ecall? then v == Traps(8 + c.priv, m.tval)
      else if Denied(c, a) then v == Traps(2, inst as bv64)
      else if a.Return? then v == Returns(a.lvl)
      else if a.Wait? then v == Goes(m.(cpu := NextPc(c).(sleeping := c.sleeping || c.mip * c.mie == {})))
      else v == Goes(m.(cpu := NextPc(c)))
  {
    hide CsrAccessed;
    hide CsrNumber;
    hide W.Num;
    hide W.Reg;
    hide NextPc;
  }

  lemma PrivBound(c: Cpu)
    requires Valid(c)
    ensures c.priv <= 3
  {
  }

  lemma SoundMeans(m: Machine)
    requires Sound(m)
    ensures m.x(0) == 0 && Valid(m.cpu)
  {
  }

  lemma CsrComes(m: Machine, csr: bv32, op: bv32, rd: bv32, operand: bv64, writes: bool, inst: bv32, junk: set<nat>, t: Machine)
    requires Valid(m.cpu)
    requires match CsrAccessed(m.cpu, CsrNumber(csr), Kind(op), W.Num(operand), writes, junk)
      case Some((v, c)) => t == m.(x := C.PutX(m.x, rd, W.Reg(v)), cpu := c.(pc := (m.cpu.pc + 4) % WORD))
      case None =>
        && Next(m.cpu, Event.Trap(Cause.Exception(2), W.Num(inst as bv64)), t.cpu)
        && t == m.(tval := inst as bv64, cpu := t.cpu)
    ensures var v := HartVerdict(m, R.Csr(csr, op, rd, operand, writes), inst, junk);
      (v.Traps? ==> v.cause < 32) && Comes(m, v, t)
  {
    hide Valid;
    hide Trapped;
    hide W.Reg;
    hide W.Num;
    hide CsrNumber;
    hide CsrAccessed;
  }
}
