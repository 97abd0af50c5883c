/** What holds over every run of the hart: arbitrary interleavings of device lines, claims,
    completions, timer events, CSR writes, traps, returns and WFI. */
module HartRuns {
  import opened Bits
  import opened BitSets
  import opened Hart

  datatype Event =
    | Line(irq: nat, flag: bool)
    | Claim(result: nat)
    | Complete(value: nat)
    | TimerDue
    | TimerMoved
    | CsrWrite(csr: nat, val: Word)
    | Trap(cause: Cause, tval: Word)
    | Poll(taken: bool)
    | Sret
    | Mret
    | Wfi
    | Retire(next: Word)

  /** The privilege check csr_read makes before every CSR write. */
  predicate Writable(c: Cpu, csr: nat) {
    csr / 0x400 % 4 != 3 && c.priv >= csr / 0x100 % 4
  }

  /** One step. Instructions are only executed while the hart is awake. */
  ghost predicate Next(s: Cpu, e: Event, t: Cpu)
    requires Valid(s)
  {
    ValidWidth(s);
    match e
    case Line(irq, flag) => 1 <= irq <= 31 && t == LineSet(s, irq, flag)
    case Claim(result) => Claimed(s, t, result)
    case Complete(value) => t == Completed(s, value)
    case TimerDue => t == WithMip(s, s.mip + {MTI})
    case TimerMoved => t == s.(mip := s.mip - {MTI})
    case CsrWrite(csr, val) => !s.sleeping && Writable(s, csr) && t == CsrResult(s, csr, val).0
    case Trap(cause, tval) => !s.sleeping && cause.Exception? && cause.code < 32 && Trapped(s, t, cause, tval)
    case Poll(taken) => InterruptTaken(s, t, taken)
    case Sret => !s.sleeping && s.priv >= PRIV_S && Returned(s, t, PRIV_S)
    case Mret => !s.sleeping && s.priv >= PRIV_M && Returned(s, t, PRIV_M)
    case Wfi => !s.sleeping && s.priv != PRIV_U && t == s.(pc := (s.pc + 4) % WORD, sleeping := s.mip * s.mie == {})
    case Retire(next) => !s.sleeping && next % 2 == 0 && t == s.(pc := next)
  }

  lemma ValidWidth(c: Cpu)
    requires Valid(c)
    ensures c.xlen in {16, 32, 64, 128}
  {
    Widths();
  }

  // ---------- the invariant ----------

  lemma ResetValid()
    ensures Valid(RESET)
  {
    Widths();
  }

  /** Every step keeps the invariant. */
  lemma StepKeepsValid(s: Cpu, e: Event, t: Cpu)
    requires Valid(s) && Next(s, e, t)
    ensures Valid(t)
  {
    hide InterruptTaken;
    hide Trapped;
    hide Returned;
    hide Claimed;
    match e
    case CsrWrite(csr, val) =>
      hide Valid;
      hide CsrResult;
      CsrKeepsValid(s, csr, val);
    case Trap(cause, tval) =>
      hide Valid;
      TrapKeepsValid(s, t, cause, tval);
    case Poll(taken) =>
      PollKeepsValid(s, t, taken);
    case Sret =>
      hide Valid;
      ReturnKeepsValid(s, t, PRIV_S);
    case Mret =>
      hide Valid;
      ReturnKeepsValid(s, t, PRIV_M);
    case Retire(_) =>
      hide Width;
      hide Field;
      hide SatpShape;
    case Wfi =>
      PcKeepsValid(s);
      hide Width;
      hide Field;
      hide SatpShape;
    case _ =>
      DeviceKeepsValid(s, e, t);
  }

  /** Device lines, claims, completions and the timer. */
  lemma DeviceKeepsValid(s: Cpu, e: Event, t: Cpu)
    requires Valid(s) && Next(s, e, t) && (e.Line? || e.Claim? || e.Complete? || e.TimerDue? || e.TimerMoved?)
    ensures Valid(t)
  {
    hide Width;
    hide Field;
    hide SatpShape;
  }

  lemma PollKeepsValid(s: Cpu, t: Cpu, taken: bool)
    requires Valid(s) && s.xlen in {16, 32, 64, 128} && InterruptTaken(s, t, taken)
    ensures Valid(t)
  {
    hide Trapped;
    if taken {
      var i: nat :| i < 32 && Takeable(s, i) && Trapped(s, t, Interrupt(i), 0);
      assert i in s.mip * s.mie;
      TrapKeepsValid(s, t, Interrupt(i), 0);
    }
  }

  lemma Outside(m: set<nat>, n: set<nat>, mask: set<nat>)
    requires SameOutside(m, n, mask)
    ensures forall i: nat :: i !in mask ==> (i in n <==> i in m)
    ensures mask <= STORED && m <= STORED ==> n <= STORED
  {
    forall i: nat | i !in mask
      ensures i in n <==> i in m
    {
      assert i in n - mask <==> i in m - mask;
    }
  }

  lemma WidthFields(m: set<nat>, n: set<nat>, mask: set<nat>)
    requires SameOutside(m, n, mask) && mask * (UXL_MASK + SXL_MASK) == {}
    ensures Field(n, UXL) == Field(m, UXL) && Field(n, SXL) == Field(m, SXL)
  {
    Outside(m, n, mask);
    assert forall i :: i in UXL_MASK + SXL_MASK ==> i !in mask * (UXL_MASK + SXL_MASK);
  }

  lemma TrapKeepsValid(s: Cpu, t: Cpu, cause: Cause, tval: Word)
    requires Valid(s) && cause.code < 32 && !s.sleeping
    requires s.xlen in {16, 32, 64, 128} && Trapped(s, t, cause, tval)
    ensures Valid(t)
  {
    hide Width;
    hide Target;
    hide CauseWord;
    var lvl := TrapMode(s, cause);
    var mask := PpMask(lvl) + {PieBit(lvl), lvl};
    assert SameOutside(s.mstatus, t.mstatus, mask);
    Outside(s.mstatus, t.mstatus, mask);
    WidthFields(s.mstatus, t.mstatus, mask);
    TargetEven(TrapRegsOf(s, lvl).tvec, s.xlen, cause);
  }

  lemma TargetEven(tvec: Word, xlen: nat, cause: Cause)
    ensures Target(tvec, cause.Interrupt?, CauseWord(xlen, cause)) % 2 == 0
  {
    hide CauseWord;
    TargetMultiple(tvec, CauseWord(xlen, cause));
  }

  lemma TargetMultiple(tvec: Word, causel: nat)
    ensures (tvec - tvec % 4) % 2 == 0
    ensures (tvec - tvec % 4 + causel * 4) % WORD % 2 == 0
  {
    var base := tvec - tvec % 4;
    assert base % 2 == 0;
    EvenRem(base + causel * 4, 0x8000_0000_0000_0000);
  }

  lemma EvenRem(x: nat, h: nat)
    requires x % 2 == 0 && h >= 1
    ensures x % (2 * h) % 2 == 0
  {
    DivMod(x, 2 * h);
    Double2(x / (2 * h), h);
  }

  lemma ReturnKeepsValid(s: Cpu, t: Cpu, lvl: nat)
    requires Valid(s) && !s.sleeping && lvl in {PRIV_S, PRIV_M} && Returned(s, t, lvl)
    ensures Valid(t)
  {
    hide Width;
    var mask := PpMask(lvl) + {PieBit(lvl), Pp(s.mstatus, lvl)};
    Outside(s.mstatus, t.mstatus, mask);
    WidthFields(s.mstatus, t.mstatus, mask);
  }

  lemma CsrKeepsValid(s: Cpu, csr: nat, val: Word)
    requires Valid(s) && !s.sleeping && Writable(s, csr)
    ensures Valid(CsrResult(s, csr, val).0)
  {
    hide *;
    if csr in {0x100, 0x300} {
      StatusCsrKeepsValid(s, csr, val);
    } else if csr in {0x104, 0x144, 0x302, 0x303, 0x304, 0x344} {
      InterruptCsrKeepsValid(s, csr, val);
    } else if csr == 0x301 {
      MisaKeepsValid(s, val);
    } else {
      OtherCsrKeepsValid(s, csr, val);
    }
  }

  lemma MisaKeepsValid(s: Cpu, val: Word)
    requires Valid(s) && Writable(s, 0x301)
    ensures Valid(CsrResult(s, 0x301, val).0)
  {
    hide NewMxl;
    hide Field;
    hide Width;
  }

  lemma StatusCsrKeepsValid(s: Cpu, csr: nat, val: Word)
    requires Valid(s) && !s.sleeping && Writable(s, csr) && csr in {0x100, 0x300}
    ensures Valid(CsrResult(s, csr, val).0)
  {
    hide Valid;
    hide Set;
    hide MstatusSet;
    hide Merge;
    hide Field;
    var bits := Set(val, 64);
    if csr == 0x100 {
      assert CsrResult(s, 0x100, val).0 == MstatusSet(s, Merge(s.mstatus, bits, SSTATUS_MASK));
      hide CsrResult;
      SupervisorView(s.mstatus, bits);
      MstatusKeepsValid(s, Merge(s.mstatus, bits, SSTATUS_MASK));
    } else {
      assert CsrResult(s, 0x300, val).0 == MstatusSet(s, bits);
      hide CsrResult;
      MstatusKeepsValid(s, bits);
    }
  }

  lemma SupervisorView(m: set<nat>, bits: set<nat>)
    ensures Field(Merge(m, bits, SSTATUS_MASK), SXL) == Field(m, SXL)
  {
  }

  lemma InterruptCsrKeepsValid(s: Cpu, csr: nat, val: Word)
    requires Valid(s) && !s.sleeping && csr in {0x104, 0x144, 0x302, 0x303, 0x304, 0x344}
    ensures Valid(CsrResult(s, csr, val).0)
  {
    hide Set;
    hide Width;
    hide Field;
  }

  lemma OtherCsrKeepsValid(s: Cpu, csr: nat, val: Word)
    requires Valid(s) && !s.sleeping
    requires csr !in {0x301, 0x100, 0x300, 0x104, 0x144, 0x302, 0x303, 0x304, 0x344}
    ensures Valid(CsrResult(s, csr, val).0)
  {
    hide CsrResult;
    hide Width;
    hide Field;
    hide SatpOf;
    hide SatpShape;
    OtherCsrIs(s, csr, val);
    SatpKeepsShape(s.satp, val);
  }

  lemma SatpKeepsShape(satp: Word, val: Word)
    requires SatpShape(satp)
    ensures SatpShape(SatpOf(satp, val))
  {
    var mode := if val / 0x1000_0000_0000_0000 in {0, 8, 9} then val / 0x1000_0000_0000_0000
                else satp / 0x1000_0000_0000_0000;
    DivUnique(SatpOf(satp, val), 0x1000_0000_0000_0000, mode, val % 0x1000_0000_0000);
  }

  lemma OtherCsrIs(s: Cpu, csr: nat, val: Word)
    requires csr !in {0x301, 0x100, 0x300, 0x104, 0x144, 0x302, 0x303, 0x304, 0x344}
    ensures var t := CsrResult(s, csr, val).0;
      && t == s.(m := t.m, s := t.s, fp := t.fp, satp := t.satp)
      && (t.m.epc == s.m.epc || t.m.epc % 2 == 0) && (t.s.epc == s.s.epc || t.s.epc % 2 == 0)
      && (t.fp.fs == s.fp.fs || t.fp.fs == 3) && (t.fp.fflags == s.fp.fflags || t.fp.fflags < 32)
      && (t.fp.frm == s.fp.frm || t.fp.frm < 5) && (t.satp == s.satp || t.satp == SatpOf(s.satp, val))
      && (t.m.counteren == s.m.counteren || t.m.counteren <= {0, 2})
      && (t.s.counteren == s.s.counteren || t.s.counteren <= {0, 2})
  {
    hide Set;
    hide SatpOf;
    EvenIsEven(val);
    hide Even;
  }

  lemma EvenIsEven(val: Word)
    ensures Even(val) % 2 == 0
  {
  }

  /** Writing mstatus cannot change the width in force: supervisor mode may not change SXL,
      user mode may not write it at all. */
  lemma MstatusKeepsValid(s: Cpu, val: set<nat>)
    requires Valid(s) && !s.sleeping && s.priv >= PRIV_S
    requires s.priv == PRIV_S ==> Field(val, SXL) == Field(s.mstatus, SXL)
    ensures Valid(MstatusSet(s, val))
  {
    hide Width;
  }

  // ---------- runs ----------

  /** `states[k + 1]` follows from `states[k]` by `events[k]`. */
  ghost predicate Run(states: seq<Cpu>, events: seq<Event>)
  {
    && |states| == |events| + 1
    && Valid(states[0])
    && forall k :: 0 <= k < |events| ==> Valid(states[k]) ==> Next(states[k], events[k], states[k + 1])
  }

  /** Every state of every run from reset satisfies the invariant. */
  lemma {:induction false} RunKeepsValid(states: seq<Cpu>, events: seq<Event>, k: nat)
    requires Run(states, events) && k < |states|
    ensures Valid(states[k])
    decreases k
  {
    if k > 0 {
      RunKeepsValid(states, events, k - 1);
      StepKeepsValid(states[k - 1], events[k - 1], states[k]);
    }
  }

  // ---------- claims and completions ----------

  lemma ServedUntilCompleted(s: Cpu, e: Event, t: Cpu, line: nat)
    requires Valid(s) && Next(s, e, t) && line in s.plic.served && e != Complete(line + 1)
    ensures line in t.plic.served
  {
    hide Valid;
    match e
    case CsrWrite(csr, val) => PlicUntouched(s, csr, val);
    case _ =>
  }

  lemma PlicUntouched(s: Cpu, csr: nat, val: Word)
    ensures CsrResult(s, csr, val).0.plic == s.plic
  {
  }

  lemma {:induction false} ServedStays(states: seq<Cpu>, events: seq<Event>, i: nat, j: nat, line: nat)
    requires Run(states, events) && i <= j < |states| && line in states[i].plic.served
    requires forall k :: i <= k < j ==> events[k] != Complete(line + 1)
    ensures line in states[j].plic.served
    decreases j
  {
    if i < j {
      ServedStays(states, events, i, j - 1, line);
      RunKeepsValid(states, events, j - 1);
      ServedUntilCompleted(states[j - 1], events[j - 1], states[j], line);
    }
  }

  /** No source is claimed twice without a completion in between. */
  lemma NoDoubleClaim(states: seq<Cpu>, events: seq<Event>, i: nat, j: nat, n: nat)
    requires Run(states, events) && i < j < |events| && n >= 1
    requires events[i] == Claim(n) && events[j] == Claim(n)
    ensures exists k :: i < k < j && events[k] == Complete(n)
  {
    hide Valid;
    RunKeepsValid(states, events, i);
    RunKeepsValid(states, events, j);
    assert Claimed(states[i], states[i + 1], n);
    assert Claimed(states[j], states[j + 1], n);
    if forall k :: i < k < j ==> events[k] != Complete(n) {
      ServedStays(states, events, i + 1, j, n - 1);
    }
  }

  /** The answers of `n` claims in a row. */
  ghost predicate Drains(s: Cpu, answers: seq<nat>, t: Cpu)
    decreases |answers|
  {
    if answers == [] then t == s
    else exists u: Cpu :: Claimed(s, u, answers[0]) && Drains(u, answers[1..], t)
  }

  lemma ClaimStep(s: Cpu, t: Cpu, n: nat)
    requires Claimed(s, t, n) && n != 0
    ensures n - 1 in Eligible(s) && Eligible(t) == Eligible(s) - {n - 1} && t.plic.pending == s.plic.pending
    ensures forall i: nat :: i in Eligible(t) ==> n - 1 < i
  {
  }

  /** Claiming until the answer is 0 returns exactly the eligible lines, in ascending order. */
  lemma {:induction false} ClaimsDrain(s: Cpu, answers: seq<nat>, t: Cpu)
    requires Drains(s, answers, t) && (forall k :: 0 <= k < |answers| ==> answers[k] != 0) && Eligible(t) == {}
    ensures forall i: nat :: i in Eligible(s) <==> i + 1 in answers
    ensures forall j, k :: 0 <= j < k < |answers| ==> answers[j] < answers[k]
    ensures t.plic.pending == s.plic.pending
    decreases |answers|
  {
    if answers != [] {
      var u: Cpu :| Claimed(s, u, answers[0]) && Drains(u, answers[1..], t);
      ClaimsDrain(u, answers[1..], t);
      hide Drains;
      ClaimStep(s, u, answers[0]);
      hide Claimed;
      hide Eligible;
      AnswersJoin(Eligible(s), Eligible(u), answers);
    }
  }

  lemma AnswersJoin(before: set<nat>, after: set<nat>, answers: seq<nat>)
    requires answers != [] && answers[0] >= 1 && answers[0] - 1 in before && after == before - {answers[0] - 1}
    requires forall k :: 0 <= k < |answers| ==> answers[k] != 0
    requires forall i: nat :: i in after <==> i + 1 in answers[1..]
    requires forall i: nat :: i in after ==> answers[0] - 1 < i
    requires forall j, k :: 0 <= j < k < |answers[1..]| ==> answers[1..][j] < answers[1..][k]
    ensures forall i: nat :: i in before <==> i + 1 in answers
    ensures forall j, k :: 0 <= j < k < |answers| ==> answers[j] < answers[k]
  {
    assert answers == [answers[0]] + answers[1..];
    forall i: nat
      ensures i in before <==> i + 1 in answers
    {
      assert i in after <==> i in before && i != answers[0] - 1;
      assert i + 1 in answers <==> i == answers[0] - 1 || i + 1 in answers[1..];
    }
    forall k | 1 <= k < |answers|
      ensures answers[0] < answers[k]
    {
      assert answers[k] in answers[1..];
      assert answers[k] - 1 in after;
    }
    Ascending(answers);
  }

  lemma Ascending(answers: seq<nat>)
    requires answers != [] && forall k :: 1 <= k < |answers| ==> answers[0] < answers[k]
    requires forall j, k :: 0 <= j < k < |answers[1..]| ==> answers[1..][j] < answers[1..][k]
    ensures forall j, k :: 0 <= j < k < |answers| ==> answers[j] < answers[k]
  {
    forall j, k | 0 <= j < k < |answers|
      ensures answers[j] < answers[k]
    {
      if j > 0 {
        assert answers[1..][j - 1] < answers[1..][k - 1];
      }
    }
  }

  // ---------- the supervisor's external bit ----------

  predicate ExternalAgree(c: Cpu) {
    SEI in c.mip <==> MEI in c.mip
  }

  /** SEIP follows MEIP through every step except a write to sip that delegates SEIP and
      writes a different value. */
  lemma SeipFollows(s: Cpu, e: Event, t: Cpu)
    requires Valid(s) && Next(s, e, t) && ExternalAgree(s)
    ensures ExternalAgree(t) <==>
            (e.CsrWrite? && e.csr == 0x144 && SEI in s.mideleg ==> (SEI in Set(e.val, 64) <==> MEI in s.mip))
  {
    hide Set;
    match e
    case CsrWrite(csr, val) =>
      MipWrite(s, csr, val);
    case _ =>
      hide Valid;
  }

  lemma MipWrite(s: Cpu, csr: nat, val: Word)
    requires s.mideleg <= MIDELEG_MASK
    ensures var mip := CsrResult(s, csr, val).0.mip;
      && (MEI in mip <==> MEI in s.mip)
      && (SEI in mip <==> if csr == 0x144 && SEI in s.mideleg then SEI in Set(val, 64) else SEI in s.mip)
  {
    hide Set;
  }

  /** The reset state with SEIP delegated and line 1 raised. */
  const LINE_RAISED: Cpu := RESET.(mideleg := {SEI}, mip := {SEI, MEI}, plic := Plic({0}, {}))

  /** Writing 0 to sip there: the line still asserts the external interrupt, and SEIP is gone. */
  lemma SeipLostExample()
    ensures Valid(LINE_RAISED) && ExternalAgree(LINE_RAISED)
    ensures var t := CsrResult(LINE_RAISED, 0x144, 0).0;
      Next(LINE_RAISED, Event.CsrWrite(0x144, 0), t) && MEI in t.mip && SEI !in t.mip
  {
    LineRaisedValid();
    hide Valid;
    hide CsrResult;
    hide Next;
    SeipLost(LINE_RAISED);
  }

  lemma SeipLost(s: Cpu)
    requires Valid(s) && !s.sleeping && s.priv >= PRIV_S && SEI in s.mideleg && MEI in s.mip
    ensures var t := CsrResult(s, 0x144, 0).0;
      Next(s, Event.CsrWrite(0x144, 0), t) && MEI in t.mip && SEI !in t.mip
  {
    assert s.mideleg <= MIDELEG_MASK;
    ValidWidth(s);
    hide Valid;
    hide CsrResult;
    NoBitOfZero(SEI);
    hide BitOf;
    MipWrite(s, 0x144, 0);
  }

  lemma LineRaisedValid()
    ensures Valid(LINE_RAISED)
  {
    Widths();
    assert 0 in Eligible(LINE_RAISED);
  }

  lemma NoBitOfZero(i: nat)
    ensures !BitOf(0, i)
  {
    DivUnique(0, Pow2(i), 0, 0);
  }

  /** A lost SEIP comes back with the next change on the controller. */
  lemma LineRestoresSeip(s: Cpu, irq: nat, flag: bool)
    requires 1 <= irq <= 31
    ensures ExternalAgree(LineSet(s, irq, flag))
  {
  }

  // ---------- interrupts ----------

  /** Pending and enabled, and not masked: machine mode takes what is not delegated if MIE is set, supervisor
      mode needs SIE for what is, and below nothing masks. */
  predicate Due(c: Cpu, i: nat) {
    && i in c.mip && i in c.mie
    && (c.priv == 3 ==> 3 in c.mstatus && i !in c.mideleg)
    && (c.priv == 1 && i in c.mideleg ==> 1 in c.mstatus)
  }

  /** The interrupt taken is the lowest takeable one. It is a software, timer or supervisor
      external interrupt: the machine external bit the controller raises cannot be enabled.
      Afterwards the mode that took it has interrupts masked. */
  lemma InterruptIs(s: Cpu, t: Cpu) returns (i: nat)
    requires Valid(s) && Next(s, Poll(true), t)
    ensures i in {1, 5, 7, 9} && Due(s, i) && forall j: nat :: Due(s, j) ==> i <= j
    ensures t.priv == if s.priv <= PRIV_S && i in s.mideleg then PRIV_S else PRIV_M
    ensures t.priv !in t.mstatus
  {
    hide Target;
    hide CauseWord;
    hide Width;
    ValidWidth(s);
    i :| i < 32 && Takeable(s, i) && (forall j: nat :: Takeable(s, j) ==> i <= j) && Trapped(s, t, Interrupt(i), 0);
    CanBeEnabled(s, i);
    hide Valid;
    hide Put;
    hide Field;
    forall j: nat
      ensures Due(s, j) <==> Takeable(s, j)
    {
    }
    hide Due;
    hide Takeable;
  }

  /** No interrupt is taken exactly if none is due. */
  lemma NoInterrupt(s: Cpu, t: Cpu)
    requires Valid(s) && Next(s, Poll(false), t)
    ensures t == s && forall j: nat :: !Due(s, j)
  {
    ValidWidth(s);
    hide Valid;
    forall j: nat
      ensures !Due(s, j)
    {
      assert !Takeable(s, j);
    }
  }

  /** An exception enters supervisor mode if and only if it comes from there or from user mode and its
      own bit of medeleg is set, whatever mideleg holds. It goes to the vector base, even if interrupts are
      vectored, and its cause register holds its number. */
  lemma ExceptionIs(s: Cpu, t: Cpu, code: nat, tval: Word)
    requires code < 32 && s.xlen in {16, 32, 64, 128} && Trapped(s, t, Exception(code), tval)
    ensures t.priv == if s.priv <= 1 && code in s.medeleg then 1 else 3
    ensures t.pc == (if t.priv == 1 then s.s.tvec else s.m.tvec) / 4 * 4
    ensures t.s == if t.priv == 1 then s.s.(epc := s.pc, cause := code, tval := tval) else s.s
    ensures t.m == if t.priv == 1 then s.m else s.m.(epc := s.pc, cause := code, tval := tval)
    ensures StackedIn(s, t)
  {
    hide Width;
    hide SameOutside;
    var tvec := if t.priv == 1 then s.s.tvec else s.m.tvec;
    DivMod(tvec, 4);
    StatusBits(s, t, t.priv);
  }

  /** The status bits of a trap from `s` to `t`: the mode entered has interrupts off and remembers the mode
      it was entered from and whether that had them on. */
  ghost predicate StackedIn(s: Cpu, t: Cpu) {
    && t.priv !in t.mstatus
    && (t.priv == 1 ==> (5 in t.mstatus <==> s.priv in s.mstatus) && (8 in t.mstatus <==> s.priv == 1))
    && (t.priv == 3 ==> (7 in t.mstatus <==> s.priv in s.mstatus) && Field(t.mstatus, 11) == s.priv)
    && forall b :: b !in (if t.priv == 1 then {1, 5, 8} else {3, 7, 11, 12}) ==> (b in t.mstatus <==> b in s.mstatus)
  }

  lemma StatusBits(s: Cpu, t: Cpu, lvl: nat)
    requires t.priv == lvl && (lvl == 1 || lvl == 3) && Pushed(s.mstatus, t.mstatus, s.priv, lvl)
    requires lvl == 1 ==> s.priv <= 1
    ensures StackedIn(s, t)
  {
    Outside(s.mstatus, t.mstatus, PpMask(lvl) + {PieBit(lvl), lvl});
    hide SameOutside;
    hide Field;
  }

  lemma CanBeEnabled(s: Cpu, i: nat)
    requires Valid(s) && Takeable(s, i)
    ensures i in {SSI, STI, MTI, SEI}
  {
    assert i in s.mie * s.mip;
    assert s.mie <= MIE_MASK && s.mip <= MIP_MASK;
    hide Valid;
  }

  /** At every width the shift is defined for, the cause register identifies the cause:
      interrupts, exceptions and their numbers are all told apart. */
  lemma CauseTells(xlen: nat, c: Cause, d: Cause)
    requires c.code < 32 && d.code < 32 && xlen in {16, 32, 64}
    ensures CauseWord(xlen, c) == CauseWord(xlen, d) <==> c == d
  {
    Widths();
  }

  /** The top bit of the cause takes part in the vector product. It leaves a 64-bit sum at
      width 64 only, so there a vectored interrupt enters its own slot, and at the narrower
      widths it lands `Pow2(xlen + 1)` bytes beyond it. */
  lemma VectorSlot(tvec: Word, xlen: nat, i: nat)
    requires i < 32 && xlen in {16, 32, 64} && tvec % 4 != 0
    ensures var base, pc := tvec - tvec % 4, Target(tvec, true, CauseWord(xlen, Interrupt(i)));
      && (pc == (base + 4 * i) % WORD <==> xlen == 64)
      && pc == (base + 4 * i + Pow2(xlen + 1)) % WORD
  {
    var slot := tvec - tvec % 4 + 4 * i;
    hide Target;
    hide CauseWord;
    hide Pow2;
    TopTimesFour(xlen);
    TargetIs(tvec, xlen, i, slot, Pow2(xlen + 1));
    if xlen == 64 {
      ModPlus(slot, 2);
    } else {
      ModApart(slot, Pow2(xlen + 1));
    }
  }

  lemma TargetIs(tvec: Word, xlen: nat, i: nat, slot: nat, d: nat)
    requires 1 <= xlen <= 64 && tvec % 4 != 0 && slot == tvec - tvec % 4 + 4 * i && Pow2(xlen - 1) * 4 == d
    ensures Target(tvec, true, CauseWord(xlen, Interrupt(i))) == (slot + d) % WORD
  {
    hide Pow2;
  }

  lemma TopTimesFour(xlen: nat)
    requires xlen in {16, 32, 64}
    ensures Pow2(xlen - 1) * 4 == Pow2(xlen + 1)
    ensures if xlen == 64 then Pow2(xlen + 1) == 2 * WORD else 0 < Pow2(xlen + 1) < WORD
  {
    Widths();
    assert Pow2(xlen + 1) == 2 * Pow2(xlen);
  }

  lemma ModPlus(x: nat, k: nat)
    ensures (x + k * WORD) % WORD == x % WORD
  {
    DivMod(x, WORD);
    DivUnique(x + k * WORD, WORD, x / WORD + k, x % WORD);
  }

  lemma ModApart(x: nat, d: nat)
    requires 0 < d < WORD
    ensures (x + d) % WORD != x % WORD
  {
  }

  /** A width-32 hart with a vectored supervisor timer interrupt: the slot is at 0x8000_0014,
      the code goes 8 GiB further. */
  lemma VectorMissesExample()
    ensures Target(0x8000_0001, true, CauseWord(32, Interrupt(STI))) == 0x2_8000_0014
  {
    Widths();
  }

  /** The timer bit is raised exactly if the deadline has come, as long as that is less than
      2^63 ticks ahead and at most 2^63 back: one farther ahead counts as past, one farther
      back as ahead. */
  lemma TimerIff(mtimecmp: Word, now: Word)
    ensures (TicksLeft(mtimecmp, now) <= 0 <==> mtimecmp <= now) <==>
            -0x8000_0000_0000_0000 <= mtimecmp - now < 0x8000_0000_0000_0000
  {
    if mtimecmp >= now {
      DivUnique(mtimecmp - now, WORD, 0, mtimecmp - now);
    } else {
      DivUnique(mtimecmp - now, WORD, -1, mtimecmp - now + WORD);
    }
  }

  /** The largest deadline, by which a guest asks for no timer at all, is due at once. */
  lemma TimerExample()
    ensures TicksLeft(WORD - 1, 0) <= 0
  {
  }

  datatype Turn = Interrupted | Asleep | Execute

  /** The state of a turn of the machine loop after it has looked at the timer. */
  function TimerLooked(c: Cpu, mtimecmp: Word, now: Word): Cpu {
    if MTI !in c.mip && TicksLeft(mtimecmp, now) <= 0 then WithMip(c, c.mip + {MTI}) else c
  }

  /** machine_loop without its I/O, up to the fetch. An instruction is only executed by an
      awake hart with no interrupt to take, a sleeping hart has none enabled and pending, and
      the hart only waits while asleep. */
  method LoopTurn(hart: Hart, mtimecmp: Word, now: Word, delay: nat) returns (turn: Turn, waited: nat)
    requires Valid(hart.View())
    modifies hart
    ensures Valid(hart.View())
    ensures var s := TimerLooked(old(hart.View()), mtimecmp, now);
      match turn
      case Interrupted => s.xlen in {16, 32, 64, 128} && InterruptTaken(s, hart.View(), true)
      case Asleep => hart.View() == s && s.sleeping && s.mip * s.mie == {}
      case Execute => hart.View() == s && !s.sleeping && forall i: nat :: !Takeable(s, i)
    ensures waited <= delay && (waited > 0 ==> turn != Execute)
  {
    ghost var start := hart.View();
    assert !start.sleeping || start.mip * start.mie == {};
    DeviceKeepsValid(start, TimerDue, WithMip(start, start.mip + {MTI}));
    waited := hart.SleepDuration(mtimecmp, now, delay);
    ghost var s := hart.View();
    assert Valid(s);
    ValidWidth(s);
    NoneTakeable(s);
    if hart.mip * hart.mie != {} {
      var taken := hart.RaiseInterrupt();
      if taken {
        PollKeepsValid(s, hart.View(), true);
        return Interrupted, waited;
      }
    }
    if hart.powerDownFlag {
      return Asleep, waited;
    }
    return Execute, waited;
  }

  lemma NoneTakeable(c: Cpu)
    ensures c.mip * c.mie == {} ==> forall i: nat :: !Takeable(c, i)
  {
    forall i: nat | Takeable(c, i)
      ensures i in c.mip * c.mie
    {
    }
  }

  datatype CsrOp = Swap | SetBits | ClearBits

  /** What a CSR instruction writes, `was` being the value read. */
  function CsrNew(op: CsrOp, was: Word, operand: Word): Word {
    match op
    case Swap => operand
    case SetBits => AsWord(Set(was, 64) + Set(operand, 64))
    case ClearBits => AsWord(Set(was, 64) - Set(operand, 64))
  }

  /** The value read and the state after a CSR instruction but for its pc, unless it is
      refused. The set and clear forms with source register 0 do not write. */
  function CsrAccessed(c: Cpu, csr: nat, op: CsrOp, operand: Word, writes: bool, junk: set<nat>): Option<(Word, Cpu)> {
    var read := CsrRead(c, csr, writes, junk);
    if read.None? then None
    else if !writes then Some((read.value, c))
    else
      var (t, w) := CsrResult(c, csr, CsrNew(op, read.value, operand));
      if w == NoCsr then None else Some((read.value, t))
  }

  /** csrrw, csrrs and csrrc. The read's checks guard the write; a refused access is an illegal
      instruction and changes nothing else. */
  method CsrAccess(hart: Hart, csr: nat, op: CsrOp, operand: Word, writes: bool, inst: Word, junk: set<nat>)
    returns (read: Option<Word>)
    requires Valid(hart.View()) && !hart.View().sleeping
    modifies hart
    ensures Valid(hart.View())
    ensures var s, t := old(hart.View()), hart.View();
      match CsrAccessed(s, csr, op, operand, writes, junk)
      case Some((v, c)) => read == Some(v) && (writes ==> Writable(s, csr)) && t == c.(pc := (s.pc + 4) % WORD)
      case None => read == None && Next(s, Event.Trap(Exception(2), inst), t)
  {
    hide CsrRead;
    hide CsrResult;
    hide CsrNew;
    hide Writable;
    hide Valid;
    hide Next;
    ghost var s := hart.View();
    read := CsrRead(hart.View(), csr, writes, junk);
    if read.Some? {
      if writes {
        ReadGuards(s, csr, junk);
        var val := CsrNew(op, read.value, operand);
        CsrKeepsValid(s, csr, val);
        RefusedUnchanged(s, csr, val);
        SwapWidth(s);
        var w := hart.CsrWrite(csr, val);
        if w != NoCsr {
          PcKeepsValid(hart.View());
          hart.NextInstruction();
          return;
        }
        read := None;
      } else {
        PcKeepsValid(hart.View());
        hart.NextInstruction();
        return;
      }
    }
    IllegalInstruction(hart, inst);
  }

  lemma SwapWidth(s: Cpu)
    requires Valid(s)
    ensures s.xlen >= 2
  {
    ValidWidth(s);
  }

  /** The error exit of decode_inst. */
  method IllegalInstruction(hart: Hart, inst: Word)
    requires Valid(hart.View()) && !hart.View().sleeping
    modifies hart
    ensures Valid(hart.View()) && Next(old(hart.View()), Event.Trap(Exception(2), inst), hart.View())
  {
    hide Next;
    hide Trapped;
    ghost var s := hart.View();
    ValidWidth(s);
    hart.RaiseException(Exception(2), inst);
    IllegalStep(s, hart.View(), inst);
  }

  lemma IllegalStep(s: Cpu, t: Cpu, inst: Word)
    requires Valid(s) && !s.sleeping && s.xlen in {16, 32, 64, 128} && Trapped(s, t, Exception(2), inst)
    ensures Valid(t) && Next(s, Event.Trap(Exception(2), inst), t)
  {
    hide Trapped;
    TrapKeepsValid(s, t, Exception(2), inst);
    hide Valid;
  }

  lemma ReadGuards(s: Cpu, csr: nat, junk: set<nat>)
    ensures CsrRead(s, csr, true, junk).Some? ==> Writable(s, csr)
  {
    hide FloatValue;
    hide SupervisorValue;
    hide MachineValue;
    hide CounterValue;
  }

  lemma RefusedUnchanged(s: Cpu, csr: nat, val: Word)
    ensures CsrResult(s, csr, val).1 == NoCsr ==> CsrResult(s, csr, val).0 == s
    ensures CsrResult(s, csr, val).0.pc == s.pc
  {
    hide Set;
    hide Merge;
  }

  lemma PcKeepsValid(c: Cpu)
    requires Valid(c)
    ensures Valid(c.(pc := (c.pc + 4) % WORD))
  {
    EvenRem(c.pc + 4, 0x8000_0000_0000_0000);
    hide Width;
    hide Field;
  }

  // ---------- privilege isolation ----------

  /** A CSR write that user or supervisor code can make leaves every machine register alone:
      machine interrupt bits, bits not delegated, the machine trap stack and SXL. */
  lemma SupervisorCannotTouchMachine(s: Cpu, csr: nat, val: Word)
    requires Valid(s) && Writable(s, csr) && s.priv <= PRIV_S
    ensures var t := CsrResult(s, csr, val).0;
      && t == s.(fp := t.fp, s := t.s, satp := t.satp, mstatus := t.mstatus, mie := t.mie, mip := t.mip)
      && t.mie - s.mideleg == s.mie - s.mideleg && t.mip - s.mideleg == s.mip - s.mideleg
      && (forall i: nat :: i in {3, MPIE, MPP, MPP + 1, 17, SXL, SXL + 1} ==> (i in t.mstatus <==> i in s.mstatus))
  {
    hide Set;
    hide Valid;
    if csr == 0x100 {
      SupervisorStatus(s, val);
    } else if csr in {0x104, 0x144} {
      assert CsrResult(s, 0x104, val).0 == s.(mie := Merge(s.mie, Set(val, 64), s.mideleg));
      assert CsrResult(s, 0x144, val).0 == s.(mip := Merge(s.mip, Set(val, 64), s.mideleg));
      hide CsrResult;
    } else {
      hide Merge;
      LowCsrIs(s, csr, val);
      hide CsrResult;
    }
  }

  lemma SupervisorStatus(s: Cpu, val: Word)
    ensures var t := CsrResult(s, 0x100, val).0;
      && t == s.(fp := t.fp, mstatus := t.mstatus)
      && (forall i: nat :: i in {3, MPIE, MPP, MPP + 1, 17, SXL, SXL + 1} ==> (i in t.mstatus <==> i in s.mstatus))
  {
    hide Set;
    hide Merge;
    hide MstatusMask;
    hide Field;
    var v := Merge(s.mstatus, Set(val, 64), SSTATUS_MASK);
    assert CsrResult(s, 0x100, val).0 == MstatusSet(s, v);
    hide CsrResult;
    SupervisorBits(s.mstatus, Set(val, 64), MstatusMask(v));
  }

  lemma SupervisorBits(m: set<nat>, bits: set<nat>, mask: set<nat>)
    ensures var n := Merge(m, Merge(m, bits, SSTATUS_MASK), mask);
      forall i: nat :: i in {3, MPIE, MPP, MPP + 1, 17, SXL, SXL + 1} ==> (i in n <==> i in m)
  {
  }

  lemma LowCsrIs(s: Cpu, csr: nat, val: Word)
    requires csr / 0x100 % 4 <= 1 && csr !in {0x100, 0x104, 0x144}
    ensures var t := CsrResult(s, csr, val).0; t == s.(fp := t.fp, s := t.s, satp := t.satp)
  {
    hide Set;
    hide SatpOf;
    hide FrmOf;
    hide Even;
    if csr in WRITABLE_M {
      assert false;
    }
    hide Merge;
  }

  const WRITABLE_M: set<nat> := {
    0x300, 0x301, 0x302, 0x303, 0x304, 0x305, 0x306, 0x340, 0x341, 0x342, 0x343, 0x344
  }
}
