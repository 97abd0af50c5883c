/** Interpreter steps over the register files: what an instruction's act does to them, and
    what every step keeps (instructions.c:286-2199). */
module Core {
  import opened Bits
  import opened Words
  import opened Rvc
  import opened RvcDecode
  import H = Hart

  /** The part of `cpu_state` that instructions change without changing privileged state:
      both register files, the floating-point unit's status, the reserved address, the value
      a trap would report (`pending_tval`), and pc. */
  datatype State = State(x: Regs, fp: Regs, unit: H.FloatRegs, loadRes: bv64, tval: bv64, pc: bv64)

  type FaultCode = c: nat | c < 32
  type Flags = f: nat | f < 32

  /** The memory system's answer to a load or store: a fault at an address, or the bytes
      loaded (ignored for stores). */
  datatype Reply = Done(value: bv64) | Faulted(cause: FaultCode, addr: bv64)

  datatype FpOut = FpOut(value: bv64, raised: Flags)

  /** What a step depends on: the answers to its first and second memory access, and the
      results of floating-point operations. */
  datatype Env = Env(first: Reply, second: Reply, fpu: (FloatOp, bv64, bv64, bv64) -> FpOut)

  /** A store the memory system has accepted. */
  datatype Stored = Stored(addr: bv64, size: nat, value: bv64)

  datatype Result =
    | Retired(state: State, stored: Option<Stored>)
    | Raised(state: State, cause: nat)
    | Deferred(act: Act)

  function Put(x: Regs, rd: bv32, v: bv64): Regs {
    r => if r == rd then v else x(r)
  }

  function PutX(x: Regs, rd: bv32, v: bv64): Regs {
    if rd == 0 then x else Put(x, rd, v)
  }

  // ---------- loaded and stored values ----------

  function SignBit(v: bv64, mask: bv64, sign: bv64): bv64 {
    if v & sign != 0 then v | !mask else v & mask
  }

  /** The low bytes of a loaded value, extended. */
  function Extended(size: nat, signed: bool, v: bv64): bv64 {
    match size
    case 1 => SignBit(v, 0xFF, if signed then 0x80 else 0)
    case 2 => SignBit(v, 0xFFFF, if signed then 0x8000 else 0)
    case 4 => SignBit(v, 0xFFFF_FFFF, if signed then 0x8000_0000 else 0)
    case _ => v
  }

  /** A single-precision number in a 64-bit register. */
  function Box(v: bv64): bv64 {
    v | 0xFFFF_FFFF_0000_0000
  }

  predicate Boxed(v: bv64) {
    v & 0xFFFF_FFFF_0000_0000 == 0xFFFF_FFFF_0000_0000
  }

  /** What an atomic operation writes back, `was` being the value read and extended. Of a
      stored value only the low `size` bytes count. */
  function AtomicValue(op: bv32, size: nat, was: bv64, v: bv64): bv64 {
    if size == 4 then Word(AtomicFull(op, Word(v), was, v)) else AtomicFull(op, v, was, v)
  }

  /** `w` is the operand as the comparisons see it. */
  function AtomicFull(op: bv32, w: bv64, was: bv64, v: bv64): bv64 {
    match op
    case 0 => Plus(was, v)
    case 4 => was ^ v
    case 0xC => And64(was, v)
    case 8 => was | v
    case 0x10 => if Less(was, w) then was else v
    case 0x14 => if Less(w, was) then was else v
    case 0x18 => if was < w then was else v
    case 0x1C => if w < was then was else v
    case _ => v
  }

  // ---------- floating-point instructions ----------

  datatype Fn =
    | Add | Sub | Mul | Div | Sqrt | Min | Max | Le | Lt | Eq | Class | Convert
    | Fma(negProduct: bool, negAddend: bool)
    | ToInt(kind: bv32) | FromInt(kind: bv32)
    | Sign(how: int) | MoveIn | MoveOut

  datatype FloatOp = FloatOp(fn: Fn, dbl: bool, rm: int)

  /** A refusal, or the operation with the register file of its result and whether it marks
      the unit dirty. */
  datatype FloatChoice = Refused | ToFp(op: FloatOp, dirty: bool) | ToX(op: FloatOp)

  /** get_inst_rm */
  function InstRm(frm: nat, rm: bv32): int {
    match rm
    case 0 => 0
    case 1 => 1
    case 2 => 2
    case 3 => 3
    case 4 => 4
    case 7 => frm
    case _ => -1
  }

  function FloatOf(frm: nat, i: bv32): FloatChoice {
    var rm := InstRm(frm, Funct3(i));
    if Opcode(i) == OP_FP_NORMAL then NormalOf(rm, Funct7(i), Rs2(i), Funct3(i))
    else FusedOf(Opcode(i), rm, (i >> 25) & 3)
  }

  function FusedOf(op: bv32, rm: int, fmt: bv32): FloatChoice {
    if rm < 0 || fmt > 1 then Refused
    else ToFp(FloatOp(Fma(op in {OP_FP_FNMSUB, OP_FP_FNMADD}, op in {OP_FP_FMSUB, OP_FP_FNMADD}), fmt == 1, rm), true)
  }

  function NormalOf(rm: int, f7: bv32, rs2: bv32, f3: bv32): FloatChoice {
    var dbl := f7 & 1 == 1;
    match f7 & 0x7E
    case 0x00 => if rm < 0 then Refused else ToFp(FloatOp(Add, dbl, rm), true)
    case 0x04 => if rm < 0 then Refused else ToFp(FloatOp(Sub, dbl, rm), true)
    case 0x08 => if rm < 0 then Refused else ToFp(FloatOp(Mul, dbl, rm), true)
    case 0x0C => if rm < 0 then Refused else ToFp(FloatOp(Div, dbl, rm), true)
    case 0x2C => if rm < 0 || rs2 != 0 then Refused else ToFp(FloatOp(Sqrt, dbl, rm), true)
    case 0x10 => if 0 <= rm <= 2 then ToFp(FloatOp(Sign(rm), dbl, rm), true) else Refused
    case 0x14 =>
      if rm == 0 then ToFp(FloatOp(Min, dbl, rm), true)
      else if rm == 1 then ToFp(FloatOp(Max, dbl, rm), true)
      else Refused
    case 0x20 => if rm < 0 || rs2 != (if dbl then 0 else 1) then Refused else ToFp(FloatOp(Convert, dbl, rm), false)
    case 0x60 => if rm < 0 || rs2 > 3 then Refused else ToX(FloatOp(ToInt(rs2), dbl, rm))
    case 0x70 =>
      if rs2 != 0 then Refused
      else if rm == 0 then ToX(FloatOp(MoveOut, dbl, rm))
      else if rm == 1 then ToX(FloatOp(Class, dbl, rm))
      else Refused
    case 0x50 =>
      if rm == 0 then ToX(FloatOp(Le, dbl, rm))
      else if rm == 1 then ToX(FloatOp(Lt, dbl, rm))
      else if rm == 2 then ToX(FloatOp(Eq, dbl, rm))
      else Refused
    case 0x68 => if rm < 0 || rs2 > 3 then Refused else ToFp(FloatOp(FromInt(rs2), dbl, rm), true)
    case 0x78 => if rs2 != 0 || f3 != 0 then Refused else ToFp(FloatOp(MoveIn, dbl, rm), true)
    case _ => Refused
  }

  const SIGN: bv64 := 0x8000_0000_0000_0000
  /** `1 << 31` as the code has it: a negative int, widened. */
  const SIGN32: bv64 := 0xFFFF_FFFF_8000_0000

  /** The sign injections: `a` with the sign of `b`, its opposite, or the product of both. */
  function SignValue(dbl: bool, how: int, a: bv64, b: bv64): bv64 {
    var mask := if dbl then SIGN else SIGN32;
    if how == 0 then (a & !mask) | (b & mask)
    else if how == 1 then (a & !mask) | ((b & mask) ^ mask)
    else a ^ (b & mask)
  }

  /** The value an operation computes for instruction `i`, and the flags it raises. */
  function Computed(s: State, op: FloatOp, i: bv32, env: Env): FpOut {
    var a, b, c := s.fp(Rs1(i)), s.fp(Rs2(i)), s.fp(i >> 27);
    match op.fn
    case Sign(how) => FpOut(SignValue(op.dbl, how, a, b), 0)
    case MoveIn => FpOut(if op.dbl then s.x(Rs1(i)) else Word(s.x(Rs1(i))), 0)
    case MoveOut => FpOut(if op.dbl then a else Word(a), 0)
    case FromInt(_) => env.fpu(op, s.x(Rs1(i)), 0, 0)
    case Class => FpOut(env.fpu(op, a, 0, 0).value, 0)
    case _ => env.fpu(op, a, b, c)
  }

  /** The register value of a result: single-precision results of the soft-float library are boxed. */
  function FpResult(op: FloatOp, v: bv64): bv64 {
    if op.dbl || op.fn.Sign? || op.fn.MoveIn? then v else Box(v)
  }

  function Accrued(unit: H.FloatRegs, raised: Flags): H.FloatRegs {
    FlagsFit(unit.fflags, raised);
    unit.(fflags := BitOr(unit.fflags, raised))
  }

  lemma FlagsFit(a: nat, b: Flags)
    requires a < 256
    ensures BitOr(a, b) < 256 && (a < 32 ==> BitOr(a, b) < 32)
  {
    assert Pow2(4) == 16;
    assert Pow2(8) == 256;
    hide BitOr;
    BitOrFits(a, b, 8);
    if a < 32 {
      BitOrFits(a, b, 5);
    }
  }

  // ---------- acts ----------

  function Refuse(s: State, inst: bv32): Result {
    Raised(s.(tval := inst as bv64), 2)
  }

  function Fault(s: State, reply: Reply): Result
    requires reply.Faulted?
  {
    Raised(s.(tval := reply.addr), reply.cause)
  }

  /** The effect of the act of instruction word `inst` of `length` bytes. A trap instruction
      reports whatever value the last fault left. */
  function Perform(s: State, a: Act, inst: bv32, length: bv64, env: Env): Result {
    var next := Plus(s.pc, length);
    match a
    case Next => Retired(s.(pc := next), None)
    case SetReg(rd, v) => Retired(s.(x := Put(s.x, rd, v), pc := next), None)
    case Load(rd, _, size, signed) =>
      if env.first.Faulted? then Fault(s, env.first)
      else Retired(s.(x := PutX(s.x, rd, Extended(size, signed, env.first.value)), pc := next), None)
    case LoadFp(rd, _, size) =>
      if env.first.Faulted? then Fault(s, env.first)
      else
        var v := if size == 4 then Box(env.first.value) else env.first.value;
        Retired(s.(fp := Put(s.fp, rd, v), unit := s.unit.(fs := 3), pc := next), None)
    case Store(addr, size, v) =>
      if env.first.Faulted? then Fault(s, env.first) else Retired(s.(pc := next), Some(Stored(addr, size, v)))
    case StoreFp(addr, rs, size) =>
      if env.first.Faulted? then Fault(s, env.first)
      else Retired(s.(pc := next), Some(Stored(addr, size, s.fp(rs))))
    case Goto(target) => Retired(s.(pc := target), None)
    case Call(target, rd) => Retired(s.(x := Put(s.x, rd, next), pc := target), None)
    case Trap(cause) => if cause == 2 then Refuse(s, inst) else Raised(s, cause)
    case LoadReserved(rd, addr, size) =>
      if env.first.Faulted? then Fault(s, env.first)
      else Retired(s.(x := PutX(s.x, rd, Extended(size, true, env.first.value)), loadRes := addr, pc := next), None)
    case StoreConditional(rd, addr, size, v) =>
      if s.loadRes != addr then Retired(s.(x := PutX(s.x, rd, 1), pc := next), None)
      else if env.first.Faulted? then Fault(s, env.first)
      else Retired(s.(x := PutX(s.x, rd, 0), loadRes := 0, pc := next), Some(Stored(addr, size, v)))
    case Atomic(op, rd, addr, size, v) =>
      if env.first.Faulted? then Fault(s, env.first)
      else if env.second.Faulted? then Fault(s, env.second)
      else
        var was := Extended(size, true, env.first.value);
        Retired(s.(x := PutX(s.x, rd, was), pc := next), Some(Stored(addr, size, AtomicValue(op, size, was, v))))
    case Float(i) => FloatPerform(s, i, inst, next, env)
    case _ => Deferred(a)
  }

  function FloatPerform(s: State, i: bv32, inst: bv32, next: bv64, env: Env): Result {
    match FloatOf(s.unit.frm, i)
    case Refused => Refuse(s, inst)
    case ToFp(op, dirty) =>
      var out := Computed(s, op, i, env);
      var unit := Accrued(s.unit, out.raised);
      Retired(s.(fp := Put(s.fp, Rd(i), FpResult(op, out.value)),
                 unit := if dirty then unit.(fs := 3) else unit, pc := next), None)
    case ToX(op) =>
      var out := Computed(s, op, i, env);
      Retired(s.(x := PutX(s.x, Rd(i), out.value), unit := Accrued(s.unit, out.raised), pc := next), None)
  }

  function ActOf(s: State, e: Option<bv32>): Act {
    if e.None? then ILLEGAL else BaseAct(s.x, s.pc, s.unit.fs != 0, e.value)
  }

  /** The instruction at the start of a fetched word, and its length. */
  function Fetched(inst: bv32): Option<bv32> {
    if Quadrant(inst) == 3 then Some(inst) else Expand(inst)
  }

  function Length(inst: bv32): bv64 {
    if Quadrant(inst) == 3 then 4 else 2
  }

  /** decode_inst on a fetched word. */
  function Executed(s: State, inst: bv32, env: Env): Result {
    Perform(s, ActOf(s, Fetched(inst)), inst, Length(inst), env)
  }

  // ---------- the interpreter ----------

  datatype Outcome = Completed(stored: Option<Stored>) | Exception(cause: nat) | LeftToHart(act: Act)

  /** The state and answer a step must leave, `s` being the state before it. */
  ghost predicate Matches(s: State, r: Result, t: State, o: Outcome) {
    match r
    case Retired(u, stored) => t == u && o == Completed(stored)
    case Raised(u, cause) => t == u && o == Exception(cause)
    case Deferred(a) => t == s && o == LeftToHart(a)
  }

  class Interpreter {
    var x: Regs
    var fp: Regs
    var unit: H.FloatRegs
    var loadRes: bv64
    var pendingTval: bv64
    var pc: bv64

    function View(): State
      reads this
    {
      State(x, fp, unit, loadRes, pendingTval, pc)
    }

    constructor (start: State)
      ensures View() == start
    {
      x, fp, unit, loadRes, pendingTval, pc := start.x, start.fp, start.unit, start.loadRes, start.tval, start.pc;
    }

    // the parts the hart writes

    method Resume(pc: bv64, unit: H.FloatRegs)
      modifies this`pc, this`unit
      ensures View() == old(View()).(pc := pc, unit := unit)
    {
      this.pc, this.unit := pc, unit;
    }

    method WriteX(rd: bv32, v: bv64)
      modifies this`x
      ensures View() == old(View()).(x := PutX(old(View()).x, rd, v))
    {
      hide Put;
      if rd != 0 {
        x := Put(x, rd, v);
      }
    }

    method SetTval(v: bv64)
      modifies this`pendingTval
      ensures View() == old(View()).(tval := v)
    {
      pendingTval := v;
    }

    /** decode_inst up to the instructions that belong to the hart: those are answered
        `LeftToHart` with nothing changed. */
    method Step(inst: bv32, env: Env) returns (o: Outcome)
      requires View().x(0) == 0
      modifies this
      ensures Matches(old(View()), Executed(old(View()), inst, env), View(), o)
    {
      hide BaseAct;
      hide Expand;
      hide Quadrant;
      hide Perform;
      hide Matches;
      hide Plain;
      if Quadrant(inst) != 3 {
        var a := DecodeCompressed(x, pc, unit.fs != 0, inst);
        assert a == ActOf(View(), Fetched(inst));
        o := Apply(a, inst, 2, env);
      } else {
        var a := BaseAct(x, pc, unit.fs != 0, inst);
        assert a == ActOf(View(), Fetched(inst));
        o := Full(a, inst, env);
      }
    }

    /** A 32-bit instruction. */
    method Full(a: Act, inst: bv32, env: Env) returns (o: Outcome)
      modifies this
      ensures Matches(old(View()), Perform(old(View()), a, inst, 4, env), View(), o)
    {
      hide Put;
      hide PutX;
      hide Plus;
      hide Extended;
      hide AtomicValue;
      hide FloatPerform;
      if Plain(a) {
        hide Perform;
        hide Matches;
        o := Apply(a, inst, 4, env);
      } else if a.Float? {
        o := FloatStep(a.inst, inst, env);
      } else if a.LoadReserved? || a.StoreConditional? || a.Atomic? {
        hide Matches;
        o := AtomicStep(a, inst, env);
      } else {
        o := LeftToHart(a);
      }
    }

    method AtomicStep(a: Act, inst: bv32, env: Env) returns (o: Outcome)
      requires a.LoadReserved? || a.StoreConditional? || a.Atomic?
      modifies this
      ensures Matches(old(View()), Perform(old(View()), a, inst, 4, env), View(), o)
    {
      hide Put;
      hide PutX;
      hide Plus;
      hide Extended;
      hide AtomicValue;
      hide Matches;
      match a {
        case LoadReserved(rd, addr, size) => o := Reserve(rd, addr, size, env);
        case StoreConditional(rd, addr, size, v) => o := StoreIfReserved(rd, addr, size, v, env);
        case Atomic(op, rd, addr, size, v) => o := ReadModifyWrite(op, rd, addr, size, v, env);
      }
    }

    /** The acts that compressed instructions have too. */
    method Apply(a: Act, inst: bv32, length: bv64, env: Env) returns (o: Outcome)
      requires Plain(a)
      modifies this
      ensures Matches(old(View()), Perform(old(View()), a, inst, length, env), View(), o)
    {
      hide Perform;
      hide Matches;
      if a.Load? || a.LoadFp? || a.Store? || a.StoreFp? {
        o := Access(a, inst, length, env);
      } else {
        o := Compute(a, inst, length, env);
      }
    }

    /** Acts without a memory access. */
    method Compute(a: Act, inst: bv32, length: bv64, env: Env) returns (o: Outcome)
      requires a.Next? || a.SetReg? || a.Goto? || a.Call? || a.Trap?
      modifies this`x, this`pendingTval, this`pc
      ensures Matches(old(View()), Perform(old(View()), a, inst, length, env), View(), o)
    {
      hide Put;
      hide Plus;
      if a.Trap? {
        if a.cause == 2 {
          pendingTval := inst as bv64;
        }
        return Exception(a.cause);
      }
      var next := Plus(pc, length);
      if a.SetReg? {
        x := Put(x, a.rd, a.value);
      } else if a.Call? {
        x := Put(x, a.rd, next);
      }
      pc := if a.Goto? || a.Call? then a.target else next;
      o := Completed(None);
    }

    method Access(a: Act, inst: bv32, length: bv64, env: Env) returns (o: Outcome)
      requires a.Load? || a.LoadFp? || a.Store? || a.StoreFp?
      modifies this
      ensures Matches(old(View()), Perform(old(View()), a, inst, length, env), View(), o)
    {
      hide Put;
      hide Plus;
      hide Extended;
      hide Box;
      if env.first.Faulted? {
        pendingTval := env.first.addr;
        return Exception(env.first.cause);
      }
      if a.Load? {
        if a.rd != 0 {
          x := Put(x, a.rd, Extended(a.size, a.signed, env.first.value));
        }
        o := Completed(None);
      } else if a.LoadFp? {
        fp := Put(fp, a.rd, if a.size == 4 then Box(env.first.value) else env.first.value);
        unit := unit.(fs := 3);
        o := Completed(None);
      } else {
        o := Completed(Some(Stored(a.addr, a.size, if a.Store? then a.value else fp(a.rs))));
      }
      pc := Plus(pc, length);
    }

    /** lr */
    method Reserve(rd: bv32, addr: bv64, size: nat, env: Env) returns (o: Outcome)
      modifies this
      ensures Matches(old(View()), Perform(old(View()), LoadReserved(rd, addr, size), 0, 4, env), View(), o)
    {
      hide Put;
      hide Plus;
      hide Extended;
      if env.first.Faulted? {
        pendingTval := env.first.addr;
        return Exception(env.first.cause);
      }
      loadRes := addr;
      if rd != 0 {
        x := Put(x, rd, Extended(size, true, env.first.value));
      }
      pc := Plus(pc, 4);
      o := Completed(None);
    }

    /** sc */
    method StoreIfReserved(rd: bv32, addr: bv64, size: nat, v: bv64, env: Env) returns (o: Outcome)
      modifies this
      ensures Matches(old(View()), Perform(old(View()), StoreConditional(rd, addr, size, v), 0, 4, env), View(), o)
    {
      hide Put;
      hide Plus;
      var value: bv64;
      o := Completed(None);
      if loadRes == addr {
        if env.first.Faulted? {
          pendingTval := env.first.addr;
          return Exception(env.first.cause);
        }
        o := Completed(Some(Stored(addr, size, v)));
        value := 0;
        loadRes := 0;
      } else {
        value := 1;
      }
      if rd != 0 {
        x := Put(x, rd, value);
      }
      pc := Plus(pc, 4);
    }

    /** The other atomic instructions: a read, then a write, then the register. */
    method ReadModifyWrite(op: bv32, rd: bv32, addr: bv64, size: nat, v: bv64, env: Env) returns (o: Outcome)
      modifies this
      ensures Matches(old(View()), Perform(old(View()), Atomic(op, rd, addr, size, v), 0, 4, env), View(), o)
    {
      hide Put;
      hide Plus;
      hide Extended;
      hide AtomicValue;
      if env.first.Faulted? {
        pendingTval := env.first.addr;
        return Exception(env.first.cause);
      }
      var value := Extended(size, true, env.first.value);
      var val2 := AtomicValue(op, size, value, v);
      if env.second.Faulted? {
        pendingTval := env.second.addr;
        return Exception(env.second.cause);
      }
      if rd != 0 {
        x := Put(x, rd, value);
      }
      pc := Plus(pc, 4);
      o := Completed(Some(Stored(addr, size, val2)));
    }

    /** The floating-point opcodes, with the unit on. */
    method FloatStep(i: bv32, inst: bv32, env: Env) returns (o: Outcome)
      modifies this
      ensures Matches(old(View()), FloatPerform(old(View()), i, inst, Plus(old(View()).pc, 4), env), View(), o)
    {
      hide Put;
      hide PutX;
      hide Plus;
      hide FloatOf;
      hide Computed;
      hide FpResult;
      hide Accrued;
      hide Rd;
      var choice := FloatOf(unit.frm, i);
      if choice.Refused? {
        pendingTval := inst as bv64;
        return Exception(2);
      }
      var out := Computed(State(x, fp, unit, loadRes, pendingTval, pc), choice.op, i, env);
      if choice.ToFp? {
        FloatToFp(Rd(i), FpResult(choice.op, out.value), out.raised, choice.dirty);
      } else {
        FloatToX(Rd(i), out.value, out.raised);
      }
      o := Completed(None);
    }

    method FloatToFp(rd: bv32, v: bv64, raised: Flags, dirty: bool)
      modifies this`fp, this`unit, this`pc
      ensures var accrued := Accrued(old(unit), raised);
        && fp == Put(old(fp), rd, v) && pc == Plus(old(pc), 4)
        && unit == if dirty then accrued.(fs := 3) else accrued
    {
      hide Put;
      hide Plus;
      hide Accrued;
      fp := Put(fp, rd, v);
      Accrue(raised);
      if dirty {
        unit := unit.(fs := 3);
      }
      pc := Plus(pc, 4);
    }

    method FloatToX(rd: bv32, v: bv64, raised: Flags)
      modifies this`x, this`unit, this`pc
      ensures x == PutX(old(x), rd, v) && unit == Accrued(old(unit), raised) && pc == Plus(old(pc), 4)
    {
      hide Put;
      hide Plus;
      hide Accrued;
      Accrue(raised);
      if rd != 0 {
        x := Put(x, rd, v);
      }
      pc := Plus(pc, 4);
    }

    /** `fflags |= raised`, as the soft-float library does through its pointer. */
    method Accrue(raised: Flags)
      modifies this`unit
      ensures unit == Accrued(old(unit), raised)
    {
      hide BitOr;
      FlagsFit(unit.fflags, raised);
      unit := unit.(fflags := BitOr(unit.fflags, raised));
    }
  }

  // ---------- compressed and full size ----------

  /** Two outcomes that differ only in the next pc and a link register, by two bytes. */
  ghost predicate LengthOnly(s: State, a: Act, r: Result, q: Result) {
    if r.Raised? then
      q.Raised? && q.cause == r.cause && r.state == s.(tval := r.state.tval) && q.state == s.(tval := q.state.tval)
    else
      && r.Retired? && q.Retired? && q.stored == r.stored
      && q.state == r.state.(x := q.state.x, pc := q.state.pc)
      && q.state.pc == (if a.Goto? || a.Call? then r.state.pc else Plus(r.state.pc, 2))
      && forall n :: q.state.x(n) == if a.Call? && n == a.rd then Plus(r.state.x(n), 2) else r.state.x(n)
  }

  /** The same instruction in its short and its long form: the same exception with nothing
      changed, or the same registers, store and pc, except that the next pc and a link
      register are two bytes further on for the long form. */
  lemma SameButLength(s: State, a: Act, short: bv32, long: bv32, env: Env)
    requires Plain(a)
    ensures LengthOnly(s, a, Perform(s, a, short, 2, env), Perform(s, a, long, 4, env))
  {
    if a.Load? || a.LoadFp? || a.Store? || a.StoreFp? {
      hide LengthOnly;
      hide Perform;
      SameAccess(s, a, short, long, env);
    } else {
      hide Plus;
      hide Put;
      hide PutX;
      PlusTwo(s.pc);
      if a.Call? {
        LinkTwo(s.x, a.rd, Plus(s.pc, 2), Plus(s.pc, 4));
      }
    }
  }

  lemma SameAccess(s: State, a: Act, short: bv32, long: bv32, env: Env)
    requires a.Load? || a.LoadFp? || a.Store? || a.StoreFp?
    ensures LengthOnly(s, a, Perform(s, a, short, 2, env), Perform(s, a, long, 4, env))
  {
    hide Plus;
    hide Put;
    hide PutX;
    hide Extended;
    hide Box;
    PlusTwo(s.pc);
  }

  lemma LinkTwo(x: Regs, rd: bv32, v: bv64, w: bv64)
    ensures forall n :: Put(x, rd, w)(n) == if n == rd then w else Put(x, rd, v)(n)
    ensures Put(x, rd, v)(rd) == v
  {
  }

  lemma PlusTwo(pc: bv64)
    ensures Plus(Plus(pc, 2), 2) == Plus(pc, 4)
  {
  }

  // ---------- what every step keeps ----------

  ghost predicate Sound(s: State) {
    s.x(0) == 0 && s.pc & 1 == 0 && UnitSound(s.unit)
  }

  predicate UnitSound(unit: H.FloatRegs) {
    unit.fs <= 3 && unit.fflags < 32 && unit.frm < 5
  }

  /** Acts never write register 0 and only jump to even addresses. */
  ghost predicate Sane(a: Act) {
    match a
    case SetReg(rd, _) => rd != 0
    case Goto(target) => target & 1 == 0
    case Call(target, rd) => target & 1 == 0 && rd != 0
    case Trap(cause) => cause in {2, 3}
    case Return(lvl) => lvl in {1, 3}
    case _ => true
  }

  lemma EvenJ(i: bv32)
    ensures Sx(ImmJ(i)) & 1 == 0
  {
  }

  lemma EvenB(i: bv32)
    ensures Sx(ImmB(i)) & 1 == 0
  {
  }

  lemma EvenSum(a: bv64, b: bv64)
    requires a & 1 == 0 && b & 1 == 0
    ensures Plus(a, b) & 1 == 0
  {
  }

  lemma EvenMask(a: bv64)
    ensures (a & !1) & 1 == 0
  {
  }

  lemma ArithmeticSane(x: Regs, f3: bv32, f7: bv32, rd: bv32, rs1: bv32, rs2: bv32, imm: bv64)
    ensures Sane(ImmAct(x, f3, rd, rs1, imm)) && Sane(Imm32Act(x, f3, rd, rs1, imm))
    ensures Sane(RegAct(x, f3, f7, rd, rs1, rs2)) && Sane(Reg32Act(x, f3, f7, rd, rs1, rs2))
  {
    hide Plus;
    hide Minus;
    hide And64;
    hide Word;
    hide Sra64;
    hide Sll64;
    hide Srl64;
    hide SllW;
    hide SrlW;
    hide SraW;
    hide Less;
    hide Flag;
    hide MulDiv;
    hide MulDiv32;
    forall v: bv64
      ensures Sane(Set(rd, v))
    {
    }
    assert Sane(ILLEGAL);
    hide Set;
    hide Sane;
  }

  lemma JumpsSane(x: Regs, pc: bv64, i: bv32)
    requires pc & 1 == 0
    ensures Sane(Jump(Plus(pc, Sx(ImmJ(i))), Rd(i)))
    ensures Sane(JumpRegAct(x, Rd(i), Rs1(i), Sx(ImmI(i))))
    ensures Sane(BranchAct(x, pc, Funct3(i), Rs1(i), Rs2(i), Sx(ImmB(i))))
  {
    EvenJ(i);
    EvenB(i);
    EvenSum(pc, Sx(ImmJ(i)));
    EvenSum(pc, Sx(ImmB(i)));
    EvenMask(Plus(x(Rs1(i)), Sx(ImmI(i))));
    hide Funct3;
    hide Rd;
    hide Rs1;
    hide Rs2;
    hide ImmI;
    hide ImmB;
    hide ImmJ;
    hide Sx;
    hide Plus;
    hide Less;
  }

  lemma MemorySane(x: Regs, fpOn: bool, f3: bv32, rd: bv32, rs1: bv32, rs2: bv32, imm: bv64)
    ensures Sane(LoadAct(x, f3, rd, rs1, imm)) && Sane(StoreAct(x, f3, rs1, rs2, imm))
    ensures Sane(FpLoadAct(x, fpOn, f3, rd, rs1, imm)) && Sane(FpStoreAct(x, fpOn, f3, rs1, rs2, imm))
  {
    hide Plus;
  }

  lemma OthersSane(x: Regs, pc: bv64, fpOn: bool, i: bv32)
    ensures Sane(SystemAct(x, i)) && Sane(OtherAct(x, pc, fpOn, i))
  {
    hide Opcode;
    hide Funct3;
    hide Rd;
    hide Rs1;
    hide Rs2;
    hide ImmU;
    hide Sx;
    hide Plus;
  }

  /** The branches decoding chooses from. */
  lemma BaseActCases(x: Regs, pc: bv64, fpOn: bool, i: bv32)
    ensures var a, rd, rs1, rs2 := BaseAct(x, pc, fpOn, i), Rd(i), Rs1(i), Rs2(i);
      || a == ImmAct(x, Funct3(i), rd, rs1, Sx(ImmI(i)))
      || a == Imm32Act(x, Funct3(i), rd, rs1, Sx(ImmI(i)))
      || a == RegAct(x, Funct3(i), Funct7(i), rd, rs1, rs2)
      || a == Reg32Act(x, Funct3(i), Funct7(i), rd, rs1, rs2)
      || a == Set(rd, Sx(ImmU(i)))
      || a == LoadAct(x, Funct3(i), rd, rs1, Sx(ImmI(i)))
      || a == StoreAct(x, Funct3(i), rs1, rs2, Sx(ImmS(i)))
      || a == FpLoadAct(x, fpOn, Funct3(i), rd, rs1, Sx(ImmI(i)))
      || a == FpStoreAct(x, fpOn, Funct3(i), rs1, rs2, Sx(ImmS(i)))
      || a == Jump(Plus(pc, Sx(ImmJ(i))), rd)
      || a == JumpRegAct(x, rd, rs1, Sx(ImmI(i)))
      || a == BranchAct(x, pc, Funct3(i), rs1, rs2, Sx(ImmB(i)))
      || a == SystemAct(x, i)
      || a == OtherAct(x, pc, fpOn, i)
  {
    hide Opcode;
    hide Funct3;
    hide Funct7;
    hide Rd;
    hide Rs1;
    hide Rs2;
    hide ImmI;
    hide ImmS;
    hide ImmB;
    hide ImmU;
    hide ImmJ;
    hide Sx;
    hide Plus;
    hide Set;
    hide ImmAct;
    hide Imm32Act;
    hide RegAct;
    hide Reg32Act;
    hide LoadAct;
    hide StoreAct;
    hide FpLoadAct;
    hide FpStoreAct;
    hide Jump;
    hide JumpRegAct;
    hide BranchAct;
    hide SystemAct;
    hide OtherAct;
  }

  /** No instruction writes register 0 or jumps to an odd address, and the only exceptions
      decoding itself raises are illegal instruction and breakpoint. */
  lemma BaseActSane(s: State, i: bv32)
    requires Sound(s)
    ensures Sane(BaseAct(s.x, s.pc, s.unit.fs != 0, i))
  {
    var fpOn, rd, rs1, rs2 := s.unit.fs != 0, Rd(i), Rs1(i), Rs2(i);
    assert Sane(Set(rd, Sx(ImmU(i))));
    ArithmeticSane(s.x, Funct3(i), Funct7(i), rd, rs1, rs2, Sx(ImmI(i)));
    JumpsSane(s.x, s.pc, i);
    hide *;
    MemorySane(s.x, fpOn, Funct3(i), rd, rs1, rs2, Sx(ImmI(i)));
    MemorySane(s.x, fpOn, Funct3(i), rd, rs1, rs2, Sx(ImmS(i)));
    OthersSane(s.x, s.pc, fpOn, i);
    BaseActCases(s.x, s.pc, fpOn, i);
  }

  /** What an act leaves behind: sound registers and an even pc, or nothing but the value a
      trap would report. */
  ghost predicate Kept(s: State, r: Result) {
    match r
    case Retired(t, _) => Sound(t) && t.tval == s.tval
    case Raised(t, cause) => cause < 32 && t == s.(tval := t.tval)
    case Deferred(a) => (a.Return? ==> a.lvl in {1, 3}) && (a.Ecall? || a.Return? || a.Wait? || a.SyncTables? || a.Csr?)
  }

  lemma PerformKeeps(s: State, a: Act, inst: bv32, length: bv64, env: Env)
    requires Sound(s) && Sane(a) && length & 1 == 0
    ensures Kept(s, Perform(s, a, inst, length, env))
  {
    EvenSum(s.pc, length);
    if a.Float? {
      FloatKeeps(s, a.inst, inst, Plus(s.pc, length), env);
      hide Kept;
    } else if MemoryAct(a) {
      MemoryKeeps(s, a, inst, length, env);
      hide Kept;
      hide Perform;
    } else {
      OtherKeeps(s, a, inst, length, env);
      hide Kept;
      hide Perform;
    }
  }

  lemma OtherKeeps(s: State, a: Act, inst: bv32, length: bv64, env: Env)
    requires Sound(s) && Sane(a) && !a.Float? && !MemoryAct(a) && Plus(s.pc, length) & 1 == 0
    ensures Kept(s, Perform(s, a, inst, length, env))
  {
    hide Plus;
  }

  predicate MemoryAct(a: Act) {
    a.Load? || a.LoadFp? || a.Store? || a.StoreFp? || a.LoadReserved? || a.StoreConditional? || a.Atomic?
  }

  lemma MemoryKeeps(s: State, a: Act, inst: bv32, length: bv64, env: Env)
    requires Sound(s) && MemoryAct(a) && Plus(s.pc, length) & 1 == 0
    ensures Kept(s, Perform(s, a, inst, length, env))
  {
    hide Plus;
    hide Extended;
    hide Box;
    hide AtomicValue;
    if a.LoadReserved? || a.StoreConditional? || a.Atomic? {
      AtomicKeeps(s, a, inst, length, env);
      hide Perform;
    }
  }

  lemma AtomicKeeps(s: State, a: Act, inst: bv32, length: bv64, env: Env)
    requires Sound(s) && Plus(s.pc, length) & 1 == 0
    requires a.LoadReserved? || a.StoreConditional? || a.Atomic?
    ensures Kept(s, Perform(s, a, inst, length, env))
  {
    hide Plus;
    hide Extended;
    hide AtomicValue;
  }

  lemma FloatKeeps(s: State, i: bv32, inst: bv32, next: bv64, env: Env)
    requires Sound(s) && next & 1 == 0
    ensures Kept(s, FloatPerform(s, i, inst, next, env))
  {
    var c := FloatOf(s.unit.frm, i);
    hide FloatOf;
    hide FpResult;
    hide Rd;
    if !c.Refused? {
      var raised := Computed(s, c.op, i, env).raised;
      FlagsFit(s.unit.fflags, raised);
      AccruedKeepsFs(s.unit, raised);
      assert Accrued(s.unit, raised).fflags < 32;
    }
    hide Computed;
    hide Accrued;
  }

  lemma LengthEven(inst: bv32)
    ensures Length(inst) & 1 == 0
  {
  }

  /** Every instruction keeps register 0 zero and pc even. One that raises an exception, an
      atomic whose write faults after its read succeeded included, changes no register of
      either file, no reservation, no floating-point flag and not pc. */
  lemma StepKeepsSound(s: State, inst: bv32, env: Env)
    requires Sound(s)
    ensures Kept(s, Executed(s, inst, env))
  {
    var e := Fetched(inst);
    if e.Some? {
      BaseActSane(s, e.value);
    }
    LengthEven(inst);
    PerformKeeps(s, ActOf(s, e), inst, Length(inst), env);
    hide Perform;
    hide BaseAct;
    hide Kept;
  }

  // ---------- what FS tells ----------

  /** The operations that set FS with their result, or have nothing to set it for. */
  predicate Marks(c: FloatChoice) {
    match c
    case Refused => true
    case ToFp(_, dirty) => dirty
    case ToX(op) => !(op.fn.Le? || op.fn.Lt? || op.fn.Eq? || op.fn.ToInt?)
  }

  predicate Tracked(s: State, inst: bv32) {
    var a := ActOf(s, Fetched(inst));
    a.Float? ==> Marks(FloatOf(s.unit.frm, a.inst))
  }

  /** A step that changes a floating-point register or flag leaves FS dirty, except a
      conversion between the formats, a comparison or a conversion to integer, which leave FS
      as it was. */
  lemma DirtyTracked(s: State, inst: bv32, env: Env)
    requires Executed(s, inst, env).Retired?
    ensures var t := Executed(s, inst, env).state;
      (t.fp == s.fp && t.unit.fflags == s.unit.fflags) || (t.unit.fs == 3 <==> Tracked(s, inst) || s.unit.fs == 3)
  {
    var a := ActOf(s, Fetched(inst));
    hide ActOf;
    hide Fetched;
    hide Plus;
    if a.Float? {
      FloatTracked(s, a.inst, inst, Plus(s.pc, Length(inst)), env);
      hide FloatPerform;
      hide Marks;
    } else {
      LoadsTracked(s, a, inst, Length(inst), env);
      hide Perform;
    }
  }

  lemma LoadsTracked(s: State, a: Act, inst: bv32, length: bv64, env: Env)
    requires !a.Float? && Perform(s, a, inst, length, env).Retired?
    ensures var t := Perform(s, a, inst, length, env).state; t.unit.fs == 3 || (t.fp == s.fp && t.unit == s.unit)
  {
    hide Plus;
    hide Put;
    hide PutX;
    hide Extended;
    hide Box;
    hide AtomicValue;
  }

  lemma FloatTracked(s: State, i: bv32, inst: bv32, next: bv64, env: Env)
    requires FloatPerform(s, i, inst, next, env).Retired?
    ensures var t := FloatPerform(s, i, inst, next, env).state;
      (t.fp == s.fp && t.unit.fflags == s.unit.fflags) || (t.unit.fs == 3 <==> Marks(FloatOf(s.unit.frm, i)) || s.unit.fs == 3)
  {
    IntegerResults(s.unit.frm, i);
    var c := FloatOf(s.unit.frm, i);
    hide FloatOf;
    if c.ToX? && Marks(c) {
      Silent(s, c.op, i, env);
    }
    NothingAccrued(s.unit);
    hide Computed;
    hide FpResult;
    hide Rd;
    if !c.Refused? {
      AccruedKeepsFs(s.unit, Computed(s, c.op, i, env).raised);
    }
    hide Accrued;
  }

  lemma Silent(s: State, op: FloatOp, i: bv32, env: Env)
    requires op.fn.MoveOut? || op.fn.Class?
    ensures Computed(s, op, i, env).raised == 0
  {
    hide Word;
  }

  lemma AccruedKeepsFs(unit: H.FloatRegs, raised: Flags)
    ensures Accrued(unit, raised) == unit.(fflags := Accrued(unit, raised).fflags)
  {
    hide BitOr;
  }

  lemma NothingAccrued(unit: H.FloatRegs)
    ensures Accrued(unit, 0) == unit
  {
    NoFlag(unit.fflags);
    hide BitOr;
  }

  /** The operations with a result in an integer register. */
  lemma IntegerResults(frm: nat, i: bv32)
    ensures var c := FloatOf(frm, i);
      c.ToX? ==> c.op.fn.MoveOut? || c.op.fn.Class? || c.op.fn.Le? || c.op.fn.Lt? || c.op.fn.Eq? || c.op.fn.ToInt?
  {
    hide Opcode;
    hide Funct3;
    hide Funct7;
    hide Rs2;
    hide InstRm;
  }

  lemma NoFlag(flags: nat)
    ensures BitOr(flags, 0) == flags
  {
    BitOrZero(flags);
  }

  /** The registers at reset, with the floating-point unit on and clean. */
  const START: State := State(_ => 0, _ => 0, H.FloatRegs(1, 0, 0), 0, 0, 0x1000)

  /** fcvt.s.d f1, f0: whatever the conversion delivers, f1 changes, and FS still says that
      nothing has been written since the last save. */
  lemma DirtyLostExample(env: Env)
    ensures var r := Executed(START, 0x4010_00D3, env);
      r.Retired? && r.state.fp(1) != START.fp(1) && r.state.unit.fs == START.unit.fs == 1
  {
    var s, i: bv32 := START, 0x4010_00D3;
    ConvertWord(s.x, s.pc, s.unit.frm);
    assert ActOf(s, Fetched(i)) == Float(i);
    BoxedNonzero(env.fpu(FloatOp(Convert, false, 0), s.fp(0), s.fp(1), s.fp(i >> 27)).value);
    hide BaseAct;
    hide ActOf;
    hide Fetched;
    hide FloatOf;
    hide BitOr;
    hide Plus;
    hide Length;
    hide Box;
  }

  lemma BoxedNonzero(v: bv64)
    ensures Box(v) != 0
  {
  }

  lemma ConvertWord(x: Regs, pc: bv64, frm: nat)
    ensures Fetched(0x4010_00D3) == Some(0x4010_00D3) && BaseAct(x, pc, true, 0x4010_00D3) == Float(0x4010_00D3)
    ensures Rd(0x4010_00D3) == 1 && Rs1(0x4010_00D3) == 0 && Rs2(0x4010_00D3) == 1
    ensures FloatOf(frm, 0x4010_00D3) == ToFp(FloatOp(Convert, false, 0), false)
  {
  }

  // ---------- boxed single-precision values ----------

  const UPPER: bv64 := 0xFFFF_FFFF_0000_0000

  /** When a sign injection leaves a boxed value. */
  predicate InjectionBoxed(how: int, a: bv64, b: bv64) {
    if how == 0 then Boxed(b) else if how == 1 then b & UPPER == 0 else (a ^ b) & UPPER == UPPER
  }

  /** The value a single-precision operation leaves in its register is boxed, for every operation
      but five: the sign injections, which also inject the upper half of their second operand,
      inverted or multiplied like the sign, and the move from an integer register, which
      extends bit 31. */
  lemma SinglesBoxed(s: State, op: FloatOp, i: bv32, env: Env)
    requires !op.dbl
    ensures var v, a, b := FpResult(op, Computed(s, op, i, env).value), s.fp(Rs1(i)), s.fp(Rs2(i));
      Boxed(v) <==> match op.fn
                    case Sign(how) => InjectionBoxed(how, a, b)
                    case MoveIn => s.x(Rs1(i)) & 0x8000_0000 != 0
                    case _ => true
  {
    hide Rs1;
    hide Rs2;
    match op.fn
    case Sign(how) =>
      SignBoxes(how, s.fp(Rs1(i)), s.fp(Rs2(i)));
      hide SignValue;
      hide Boxed;
      hide InjectionBoxed;
    case MoveIn =>
      WordBoxes(s.x(Rs1(i)));
      hide Word;
    case _ =>
      BoxBoxes(Computed(s, op, i, env).value);
      hide Computed;
      hide Boxed;
      hide Box;
  }

  lemma SignBoxes(how: int, a: bv64, b: bv64)
    ensures Boxed(SignValue(false, how, a, b)) <==> InjectionBoxed(how, a, b)
  {
    hide *;
    if how == 0 {
      Inject0(a, b);
    } else if how == 1 {
      Inject1(a, b);
    } else {
      Inject2(how, a, b);
    }
  }

  lemma Inject0(a: bv64, b: bv64)
    ensures Boxed(SignValue(false, 0, a, b)) <==> InjectionBoxed(0, a, b)
  {
  }

  lemma Inject1(a: bv64, b: bv64)
    ensures Boxed(SignValue(false, 1, a, b)) <==> InjectionBoxed(1, a, b)
  {
  }

  lemma Inject2(how: int, a: bv64, b: bv64)
    requires how != 0 && how != 1
    ensures Boxed(SignValue(false, how, a, b)) <==> InjectionBoxed(how, a, b)
  {
    OtherInjection(how, a, b);
    XorBoxes(a, b);
    hide *;
  }

  lemma OtherInjection(how: int, a: bv64, b: bv64)
    requires how != 0 && how != 1
    ensures SignValue(false, how, a, b) == a ^ (b & SIGN32)
    ensures InjectionBoxed(how, a, b) <==> (a ^ b) & UPPER == UPPER
  {
    hide Boxed;
  }

  lemma XorBoxes(a: bv64, b: bv64)
    ensures Boxed(a ^ (b & SIGN32)) <==> (a ^ b) & UPPER == UPPER
  {
  }

  /** fsgnj.s f1, f2, f2, fsgnjn.s f1, f2, f2 and fsgnjx.s f1, f2, f2. */
  const INJECTIONS: seq<bv32> := [0x2021_00D3, 0x2021_10D3, 0x2021_20D3]

  /** From the reset registers with the unit on, fsgnj.s leaves 0, which is not boxed. With
      boxed 1.0 in f2 the other two leave -1.0 and 1.0 without their box. */
  lemma UnboxedExample(env: Env)
    ensures var r := Executed(START, INJECTIONS[0], env); r.Retired? && r.state.fp(1) == 0 && !Boxed(0)
    ensures var s := START.(fp := Put(START.fp, 2, 0xFFFF_FFFF_3F80_0000));
      var n, x := Executed(s, INJECTIONS[1], env), Executed(s, INJECTIONS[2], env);
      n.Retired? && n.state.fp(1) == 0xBF80_0000 && x.Retired? && x.state.fp(1) == 0x3F80_0000
  {
    var s := START.(fp := Put(START.fp, 2, 0xFFFF_FFFF_3F80_0000));
    Injects(START, 0, env);
    Injects(s, 1, env);
    Injects(s, 2, env);
    hide Executed;
  }

  lemma Injects(s: State, how: nat, env: Env)
    requires how < 3 && s.unit.fs != 0
    ensures var r := Executed(s, INJECTIONS[how], env);
      r.Retired? && r.state.fp(1) == SignValue(false, how, s.fp(2), s.fp(2))
  {
    var i := INJECTIONS[how];
    InjectionWord(s.x, s.pc, s.unit.frm, how);
    assert ActOf(s, Fetched(i)) == Float(i);
    hide BaseAct;
    hide ActOf;
    hide Fetched;
    hide FloatOf;
    hide SignValue;
    hide BitOr;
    hide Plus;
    hide Length;
  }

  lemma InjectionWord(x: Regs, pc: bv64, frm: nat, how: nat)
    requires how < 3
    ensures var i := INJECTIONS[how];
      && Fetched(i) == Some(i) && BaseAct(x, pc, true, i) == Float(i)
      && FloatOf(frm, i) == ToFp(FloatOp(Sign(how), false, how), true)
      && Rd(i) == 1 && Rs1(i) == 2 && Rs2(i) == 2
  {
  }

  lemma WordBoxes(v: bv64)
    ensures Boxed(Word(v)) <==> v & 0x8000_0000 != 0
  {
  }

  lemma BoxBoxes(v: bv64)
    ensures Boxed(Box(v))
  {
  }

  // ---------- reservations ----------

  /** What becomes of the reserved address, and when a store-conditional stores. */
  lemma ReservationAfter(s: State, a: Act, inst: bv32, length: bv64, env: Env)
    ensures var r := Perform(s, a, inst, length, env);
      && (r.Raised? ==> r.state.loadRes == s.loadRes)
      && (r.Retired? ==> r.state.loadRes == (if a.LoadReserved? then a.addr
                                             else if a.StoreConditional? && s.loadRes == a.addr then 0
                                             else s.loadRes))
      && (a.LoadReserved? ==> (r.Retired? <==> env.first.Done?) && !r.Deferred?)
      && (a.StoreConditional? ==> (r.Retired? <==> s.loadRes != a.addr || env.first.Done?) && !r.Deferred?)
      && (a.StoreConditional? ==> (r.Retired? && r.stored.Some? <==> s.loadRes == a.addr && env.first.Done?))
  {
    hide Plus;
    hide Put;
    hide PutX;
    hide Extended;
    hide Box;
    hide AtomicValue;
    hide Accrued;
    hide Computed;
    hide FloatOf;
    hide FpResult;
  }

  // ---------- what a refusal reports ----------

  /** The bits of the instruction at the start of a fetched word. */
  function OwnBits(inst: bv32): bv64 {
    if Quadrant(inst) == 3 then inst as bv64 else (inst & 0xFFFF) as bv64
  }

  /** A refused instruction reports the fetched word. That is the instruction itself, upper
      bits zero, if and only if it is a full one or the halfword after it is zero. */
  lemma RefusalReports(s: State, inst: bv32, env: Env)
    requires ActOf(s, Fetched(inst)) == ILLEGAL
    ensures var r := Executed(s, inst, env);
      r.Raised? && r.cause == 2 && (r.state.tval == OwnBits(inst) <==> Quadrant(inst) == 3 || inst & 0xFFFF_0000 == 0)
  {
    hide BaseAct;
    hide ActOf;
    hide Fetched;
    UpperHalf(inst);
    hide Quadrant;
    hide Plus;
  }

  lemma UpperHalf(inst: bv32)
    ensures inst as bv64 == (inst & 0xFFFF) as bv64 <==> inst & 0xFFFF_0000 == 0
  {
  }

  /** The all-zero halfword, which is no instruction, followed by another halfword. */
  lemma RefusalReportsExample(s: State, env: Env)
    ensures var r := Executed(s, 0x1234_0000, env); r.Raised? && r.cause == 2 && r.state.tval == 0x1234_0000
  {
    ZeroHalf();
    hide Fetched;
    hide Plus;
  }

  lemma ZeroHalf()
    ensures Fetched(0x1234_0000) == None
  {
  }
}
