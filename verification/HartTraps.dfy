/** Traps nest last-in-first-out: whatever happens between a trap and its matching return,
    as long as trap registers in use are looked after, the return restores the interrupted
    code's pc, privilege, width and interrupt enable. */
module HartTraps {
  import opened Bits
  import opened BitSets
  import opened Hart
  import opened HartRuns
  import opened HartCsr

  /** The frame of mode `lvl`: what a return from it consumes. */
  datatype Saved = Saved(epc: Word, previous: nat, enabled: bool)

  function Stacked(c: Cpu, lvl: nat): Saved {
    Saved(TrapRegsOf(c, lvl).epc, Pp(c.mstatus, lvl), PieBit(lvl) in c.mstatus)
  }

  /** Same privilege and widths, and the frames of the modes in `live` intact. */
  ghost predicate Keeps(s: Cpu, t: Cpu, live: set<nat>) {
    && t.priv == s.priv && t.mxl == s.mxl
    && Field(t.mstatus, UXL) == Field(s.mstatus, UXL) && Field(t.mstatus, SXL) == Field(s.mstatus, SXL)
    && (PRIV_S in live ==> Stacked(t, PRIV_S) == Stacked(s, PRIV_S))
    && (PRIV_M in live ==> Stacked(t, PRIV_M) == Stacked(s, PRIV_M))
  }

  /** What code does at one privilege: work of its own, ending in any state that keeps the
      frames in use; a trap, into the same or a higher mode, whose handler runs `body` and
      returns; or acts between saving the frame of a mode and putting it back, as a handler
      does that can be interrupted in its own mode. */
  datatype Act = Work(result: Cpu) | Handled(cause: Cause, tval: Word, body: seq<Act>) | Framed(lvl: nat, body: seq<Act>)

  /** `live` has the modes whose frames are in use. */
  ghost predicate Exec(s: Cpu, live: set<nat>, acts: seq<Act>, t: Cpu)
    requires Valid(s)
    decreases acts
  {
    if acts == [] then t == s
    else exists u: Cpu :: Valid(u) && Does(s, live, acts[0], u) && Exec(u, live, acts[1..], t)
  }

  ghost predicate Does(s: Cpu, live: set<nat>, act: Act, t: Cpu)
    requires Valid(s)
    decreases act
  {
    match act
    case Work(u) => t == u && Valid(u) && Keeps(s, u, live)
    case Handled(cause, tval, body) =>
      exists a: Cpu, b: Cpu :: Valid(a) && Enters(s, live, cause, tval, a)
        && Exec(a, live + {a.priv}, body, b) && Leaves(b, a.priv, t)
    case Framed(lvl, body) =>
      exists b: Cpu :: Exec(s, live - {lvl}, body, b) && PutBack(s, live, lvl, b, t)
  }

  /** A trap into a mode whose frame is free. */
  ghost predicate Enters(s: Cpu, live: set<nat>, cause: Cause, tval: Word, a: Cpu)
    requires Valid(s)
  {
    ValidWidth(s);
    cause.code < 32 && Trapped(s, a, cause, tval) && a.priv !in live
  }

  /** The return instruction of mode `lvl`, executed by an awake hart. */
  ghost predicate Leaves(b: Cpu, lvl: nat, t: Cpu) {
    !b.sleeping && Returned(b, t, lvl)
  }

  /** The frame of `lvl` is what it was in `s` again; what else is in use stays. */
  ghost predicate PutBack(s: Cpu, live: set<nat>, lvl: nat, b: Cpu, t: Cpu) {
    lvl in {PRIV_S, PRIV_M} && Valid(t) && Keeps(b, t, live - {lvl}) && Stacked(t, lvl) == Stacked(s, lvl)
  }

  /** The other of the two modes that take traps. */
  function Other(lvl: nat): nat {
    if lvl == PRIV_S then PRIV_M else PRIV_S
  }

  /** Entering a mode stacks the interrupted code there and leaves the other mode's frame
      alone. The mode is never below the one interrupted. */
  lemma EntryStacks(s: Cpu, cause: Cause, tval: Word, a: Cpu)
    requires Valid(s) && cause.code < 32 && s.xlen in {16, 32, 64, 128} && Trapped(s, a, cause, tval)
    ensures a.priv in {PRIV_S, PRIV_M} && a.priv >= s.priv
    ensures Stacked(a, a.priv) == Saved(s.pc, s.priv, s.priv in s.mstatus)
    ensures Stacked(a, Other(a.priv)) == Stacked(s, Other(a.priv))
    ensures a.mxl == s.mxl && Field(a.mstatus, UXL) == Field(s.mstatus, UXL) && Field(a.mstatus, SXL) == Field(s.mstatus, SXL)
  {
    hide Target;
    hide CauseWord;
    hide Width;
    hide SameOutside;
    hide Field;
    Apart(s.mstatus, a.mstatus, a.priv, a.priv);
  }

  /** The frames of the two modes, the enable bits and the width fields do not overlap. */
  lemma Apart(m: set<nat>, n: set<nat>, lvl: nat, p: nat)
    requires lvl in {PRIV_S, PRIV_M} && p <= 3 && SameOutside(m, n, PpMask(lvl) + {PieBit(lvl), p})
    ensures Pp(n, Other(lvl)) == Pp(m, Other(lvl)) && (PieBit(Other(lvl)) in n <==> PieBit(Other(lvl)) in m)
    ensures Field(n, UXL) == Field(m, UXL) && Field(n, SXL) == Field(m, SXL)
  {
    var mask := PpMask(lvl) + {PieBit(lvl), p};
    Outside(m, n, mask);
    WidthFields(m, n, mask);
    hide SameOutside;
  }

  /** Returning consumes the frame of the mode left, which is then free and reset, and leaves
      the other mode's alone. */
  lemma ExitRestores(b: Cpu, t: Cpu, lvl: nat)
    requires Valid(b) && b.priv == lvl && lvl in {PRIV_S, PRIV_M} && Returned(b, t, lvl)
    ensures var k := Stacked(b, lvl);
      && t.pc == k.epc && t.priv == k.previous && (t.priv in t.mstatus <==> k.enabled)
      && Stacked(t, lvl) == Saved(k.epc, PRIV_U, true)
    ensures Stacked(t, Other(lvl)) == Stacked(b, Other(lvl))
    ensures t.mxl == b.mxl && Field(t.mstatus, UXL) == Field(b.mstatus, UXL) && Field(t.mstatus, SXL) == Field(b.mstatus, SXL)
    ensures t.xlen == Width(XLenCode(t.mstatus, t.mxl, t.priv))
  {
    hide Width;
    hide SameOutside;
    hide Field;
    Apart(b.mstatus, t.mstatus, lvl, Pp(b.mstatus, lvl));
  }

  /** Any sequence of acts keeps the privilege, the widths and the frames in use. */
  lemma {:induction false} ActsKeep(s: Cpu, live: set<nat>, acts: seq<Act>, t: Cpu)
    requires Valid(s) && Exec(s, live, acts, t)
    ensures Valid(t) && Keeps(s, t, live)
    decreases acts
  {
    hide Valid;
    hide Keeps;
    if acts == [] {
      KeepsRefl(s, live);
    } else {
      var u: Cpu :| Valid(u) && Does(s, live, acts[0], u) && Exec(u, live, acts[1..], t);
      match acts[0] {
        case Work(w) =>
        case Handled(cause, tval, body) => HandledRestores(s, live, cause, tval, body, u);
        case Framed(lvl, body) => FramedKeeps(s, live, lvl, body, u);
      }
      ActsKeep(u, live, acts[1..], t);
      KeepsTrans(s, u, t, live);
    }
  }

  lemma KeepsRefl(s: Cpu, live: set<nat>)
    ensures Keeps(s, s, live)
  {
  }

  lemma KeepsTrans(s: Cpu, t: Cpu, u: Cpu, live: set<nat>)
    requires Keeps(s, t, live) && Keeps(t, u, live)
    ensures Keeps(s, u, live)
  {
    hide Stacked;
  }

  /** Every trap into a mode whose frame is free, the same mode included, any handler with any
      traps nested inside it, and the matching return: the interrupted code goes on where it
      was, at its privilege and width, with its own interrupt enable and every frame in use.
      The frame the trap went through is used up. */
  lemma {:induction false} HandledRestores(s: Cpu, live: set<nat>, cause: Cause, tval: Word, body: seq<Act>, t: Cpu)
    requires Valid(s) && Does(s, live, Handled(cause, tval, body), t)
    ensures Valid(t) && Keeps(s, t, live)
    ensures t.pc == s.pc && t.xlen == s.xlen && (s.priv in t.mstatus <==> s.priv in s.mstatus)
    ensures Stacked(t, TrapMode(s, cause)) == Saved(s.pc, PRIV_U, true)
    decreases Handled(cause, tval, body)
  {
    hide Keeps;
    hide Leaves;
    hide Enters;
    hide Valid;
    var a: Cpu, b: Cpu :| Valid(a) && Enters(s, live, cause, tval, a)
      && Exec(a, live + {a.priv}, body, b) && Leaves(b, a.priv, t);
    ActsKeep(a, live + {a.priv}, body, b);
    MatchedReturn(s, live, cause, tval, a, b, t);
  }

  lemma MatchedReturn(s: Cpu, live: set<nat>, cause: Cause, tval: Word, a: Cpu, b: Cpu, t: Cpu)
    requires Valid(s) && Valid(a) && Enters(s, live, cause, tval, a)
    requires Valid(b) && Keeps(a, b, live + {a.priv}) && Leaves(b, a.priv, t)
    ensures Valid(t) && Keeps(s, t, live)
    ensures t.pc == s.pc && t.xlen == s.xlen && (s.priv in t.mstatus <==> s.priv in s.mstatus)
    ensures Stacked(t, TrapMode(s, cause)) == Saved(s.pc, PRIV_U, true)
  {
    hide Stacked;
    hide Returned;
    hide Width;
    ValidWidth(s);
    EntryStacks(s, cause, tval, a);
    assert a.priv == TrapMode(s, cause);
    hide Trapped;
    hide TrapMode;
    assert Stacked(b, a.priv) == Stacked(a, a.priv);
    ExitRestores(b, t, a.priv);
    ReturnKeepsValid(b, t, a.priv);
    assert s.xlen == Width(XLenCode(s.mstatus, s.mxl, s.priv));
  }

  /** Acts with the frame of a mode saved around them keep that frame too. */
  lemma {:induction false} FramedKeeps(s: Cpu, live: set<nat>, lvl: nat, body: seq<Act>, t: Cpu)
    requires Valid(s) && Does(s, live, Framed(lvl, body), t)
    ensures Valid(t) && Keeps(s, t, live) && Keeps(s, t, live + {lvl})
    decreases Framed(lvl, body)
  {
    hide Keeps;
    hide PutBack;
    hide Valid;
    var b: Cpu :| Exec(s, live - {lvl}, body, b) && PutBack(s, live, lvl, b, t);
    ActsKeep(s, live - {lvl}, body, b);
    FrameIsBack(s, live, lvl, b, t);
  }

  lemma FrameIsBack(s: Cpu, live: set<nat>, lvl: nat, b: Cpu, t: Cpu)
    requires Keeps(s, b, live - {lvl}) && PutBack(s, live, lvl, b, t)
    ensures Valid(t) && Keeps(s, t, live + {lvl}) && Keeps(s, t, live)
  {
    hide Stacked;
    hide Valid;
  }

  // ---------- what keeps the frames ----------

  /** The bits of mstatus that hold frames and widths. */
  const FRAME_BITS: set<nat> := {SPIE, SPP, MPIE, MPP, MPP + 1} + UXL_MASK + SXL_MASK

  /** Every step but a trap, an interrupt taken, a return, and a CSR write to misa, to the epc
      of a frame in use, or of other frame and width bits to the status register. */
  predicate Plain(s: Cpu, e: Event, live: set<nat>) {
    match e
    case Trap(_, _) => false
    case Poll(taken) => !taken
    case Sret => false
    case Mret => false
    case CsrWrite(csr, val) =>
      && csr != 0x301 && (PRIV_S in live ==> csr != 0x141) && (PRIV_M in live ==> csr != 0x341)
      && (csr == 0x100 ==> Set(val, 64) * (FRAME_BITS * SSTATUS_MASK) == s.mstatus * (FRAME_BITS * SSTATUS_MASK))
      && (csr == 0x300 ==> Set(val, 64) * FRAME_BITS == s.mstatus * FRAME_BITS)
    case _ => true
  }

  /** Such a step is work: it keeps the frames in use. */
  lemma PlainKeeps(s: Cpu, e: Event, t: Cpu, live: set<nat>)
    requires Valid(s) && Next(s, e, t) && Plain(s, e, live)
    ensures Valid(t) && Keeps(s, t, live)
  {
    StepKeepsValid(s, e, t);
    hide Valid;
    match e
    case CsrWrite(csr, val) => CsrKeeps(s, csr, val, live);
    case _ =>
  }

  lemma CsrKeeps(s: Cpu, csr: nat, val: Word, live: set<nat>)
    requires Plain(s, CsrWrite(csr, val), live)
    ensures Keeps(s, CsrResult(s, csr, val).0, live)
  {
    hide Set;
    hide Keeps;
    if csr in {0x100, 0x300} {
      var bits := if csr == 0x100 then Merge(s.mstatus, Set(val, 64), SSTATUS_MASK) else Set(val, 64);
      if csr == 0x100 {
        ViewKeeps(s.mstatus, Set(val, 64));
      } else {
        SameBits(s.mstatus, Set(val, 64), FRAME_BITS);
      }
      assert CsrResult(s, csr, val).0 == MstatusSet(s, bits);
      hide *;
      StatusKeeps(s, bits, live);
    } else {
      hide MstatusSet;
      OtherCsrKeeps(s, csr, val, live);
    }
  }

  lemma SameBits(m: set<nat>, n: set<nat>, mask: set<nat>)
    requires n * mask == m * mask
    ensures forall i :: i in mask ==> (i in n <==> i in m)
  {
    forall i | i in mask
      ensures i in n <==> i in m
    {
      assert i in n * mask <==> i in m * mask;
    }
  }

  lemma ViewKeeps(m: set<nat>, val: set<nat>)
    requires val * (FRAME_BITS * SSTATUS_MASK) == m * (FRAME_BITS * SSTATUS_MASK)
    ensures forall i :: i in FRAME_BITS ==> (i in Merge(m, val, SSTATUS_MASK) <==> i in m)
  {
    SameBits(m, val, FRAME_BITS * SSTATUS_MASK);
    hide FRAME_BITS;
    hide SSTATUS_MASK;
  }

  lemma OtherCsrKeeps(s: Cpu, csr: nat, val: Word, live: set<nat>)
    requires Plain(s, CsrWrite(csr, val), live) && csr !in {0x100, 0x300}
    ensures Keeps(s, CsrResult(s, csr, val).0, live)
  {
    hide Set;
    hide Merge;
    hide MstatusSet;
    hide SatpOf;
    hide FrmOf;
    var t := CsrResult(s, csr, val).0;
    assert t.mstatus == s.mstatus && t.priv == s.priv && t.mxl == s.mxl;
    assert PRIV_S in live ==> t.s.epc == s.s.epc;
    assert PRIV_M in live ==> t.m.epc == s.m.epc;
    hide CsrResult;
  }

  lemma StatusKeeps(s: Cpu, bits: set<nat>, live: set<nat>)
    requires forall i :: i in FRAME_BITS ==> (i in bits <==> i in s.mstatus)
    ensures Keeps(s, MstatusSet(s, bits), live)
  {
    var n := Merge(s.mstatus, bits, MstatusMask(bits));
    hide MstatusMask;
    assert forall i :: i in FRAME_BITS ==> (i in n <==> i in s.mstatus);
  }

  // ---------- saving a frame ----------

  function EpcCsr(lvl: nat): nat {
    if lvl == PRIV_S then 0x141 else 0x341
  }

  function StatusCsr(lvl: nat): nat {
    if lvl == PRIV_S then 0x100 else 0x300
  }

  /** How a frame is saved and put back: what epc and the status register read as in `s` is
      written to them in `b`. Every other frame stays. */
  lemma FramePutBack(s: Cpu, b: Cpu, lvl: nat, live: set<nat>, junk: set<nat>)
    requires Valid(s) && Valid(b) && !b.sleeping && lvl in {PRIV_S, PRIV_M} && s.priv >= lvl
    requires Keeps(s, b, live - {lvl})
    ensures var epc, status := CsrRead(s, EpcCsr(lvl), true, junk), CsrRead(s, StatusCsr(lvl), true, junk);
      && epc.Some? && status.Some?
      && var t := CsrResult(CsrResult(b, EpcCsr(lvl), epc.value).0, StatusCsr(lvl), status.value).0;
         PutBack(s, live, lvl, b, t)
  {
    EpcReads(s, b, lvl, junk);
    var c := CsrResult(b, EpcCsr(lvl), CsrRead(s, EpcCsr(lvl), true, junk).value).0;
    StatusReads(s, c, lvl, junk);
    var v := CsrRead(s, StatusCsr(lvl), true, junk).value;
    CsrKeepsValid(b, EpcCsr(lvl), CsrRead(s, EpcCsr(lvl), true, junk).value);
    CsrKeepsValid(c, StatusCsr(lvl), v);
    var t := CsrResult(c, StatusCsr(lvl), v).0;
    hide Valid;
    hide CsrResult;
    hide CsrRead;
    FrameJoined(s, b, c, lvl, live, t);
  }

  lemma EpcReads(s: Cpu, b: Cpu, lvl: nat, junk: set<nat>)
    requires Valid(s) && lvl in {PRIV_S, PRIV_M} && s.priv >= lvl
    ensures var epc := CsrRead(s, EpcCsr(lvl), true, junk);
      && epc.Some?
      && CsrResult(b, EpcCsr(lvl), epc.value).0
         == WithTrapRegs(b, lvl, TrapRegsOf(b, lvl).(epc := TrapRegsOf(s, lvl).epc))
  {
    hide Set;
    hide GetMstatus;
    hide AsWord;
    hide Field;
    hide Width;
    hide SatpShape;
  }

  /** The bits a status write puts back, the others being those of `m`. */
  ghost predicate BitsBack(s: set<nat>, m: set<nat>, n: set<nat>, lvl: nat) {
    forall i :: i in FRAME_BITS ==> (i in n <==> if lvl == PRIV_S && i !in SSTATUS_MASK then i in m else i in s)
  }

  lemma StatusReads(s: Cpu, c: Cpu, lvl: nat, junk: set<nat>)
    requires Valid(s) && lvl in {PRIV_S, PRIV_M} && s.priv >= lvl
    ensures var status := CsrRead(s, StatusCsr(lvl), true, junk);
      && status.Some?
      && var t := CsrResult(c, StatusCsr(lvl), status.value).0;
         t == c.(mstatus := t.mstatus, fp := t.fp) && BitsBack(s.mstatus, c.mstatus, t.mstatus, lvl)
  {
    var mask := if lvl == PRIV_S then SSTATUS_MASK else ALL_BITS;
    var v := Set(AsWord(GetMstatus(s, mask)), 64);
    var bits := if lvl == PRIV_S then Merge(c.mstatus, v, SSTATUS_MASK) else v;
    StatusAccess(s, c, lvl, junk);
    assert Legal(Field(s.mstatus, UXL));
    hide *;
    StatusWord(s, mask);
    FrameBits(s.mstatus, c.mstatus, v, lvl);
    TakesBits(c, bits);
    BitsTaken(s.mstatus, c.mstatus, bits, MstatusSet(c, bits).mstatus, lvl);
  }

  lemma StatusAccess(s: Cpu, c: Cpu, lvl: nat, junk: set<nat>)
    requires lvl in {PRIV_S, PRIV_M} && s.priv >= lvl
    ensures var mask := if lvl == PRIV_S then SSTATUS_MASK else ALL_BITS;
      var v := AsWord(GetMstatus(s, mask));
      var bits := if lvl == PRIV_S then Merge(c.mstatus, Set(v, 64), SSTATUS_MASK) else Set(v, 64);
      && CsrRead(s, StatusCsr(lvl), true, junk) == Some(v)
      && CsrResult(c, StatusCsr(lvl), v).0 == MstatusSet(c, bits)
  {
    hide Set;
    hide AsWord;
    hide GetMstatus;
    hide MstatusSet;
    hide Merge;
  }

  lemma BitsTaken(s: set<nat>, m: set<nat>, bits: set<nat>, n: set<nat>, lvl: nat)
    requires BitsBack(s, m, bits, lvl) && forall i :: i in FRAME_BITS ==> (i in n <==> i in bits)
    ensures BitsBack(s, m, n, lvl)
  {
  }

  lemma FrameBits(s: set<nat>, m: set<nat>, v: set<nat>, lvl: nat)
    requires lvl in {PRIV_S, PRIV_M} && Legal(Field(s, UXL))
    requires var mask := if lvl == PRIV_S then SSTATUS_MASK else ALL_BITS;
      forall i: nat :: i in mask && i !in FS_MASK + {15, 31, 63} ==> (i in v <==> i in s)
    ensures var bits := if lvl == PRIV_S then Merge(m, v, SSTATUS_MASK) else v;
      BitsBack(s, m, bits, lvl) && Legal(Field(bits, UXL))
  {
  }

  lemma TakesBits(c: Cpu, bits: set<nat>)
    requires Legal(Field(bits, UXL))
    ensures var t := MstatusSet(c, bits);
      t == c.(mstatus := t.mstatus, fp := t.fp) && forall i :: i in FRAME_BITS ==> (i in t.mstatus <==> i in bits)
  {
  }

  lemma FrameJoined(s: Cpu, b: Cpu, c: Cpu, lvl: nat, live: set<nat>, t: Cpu)
    requires lvl in {PRIV_S, PRIV_M} && Valid(t) && Keeps(s, b, live - {lvl})
    requires c == WithTrapRegs(b, lvl, TrapRegsOf(b, lvl).(epc := TrapRegsOf(s, lvl).epc))
    requires t == c.(mstatus := t.mstatus, fp := t.fp) && BitsBack(s.mstatus, c.mstatus, t.mstatus, lvl)
    ensures PutBack(s, live, lvl, b, t)
  {
    hide Valid;
  }

  /** A trap that returns at once changes mstatus only in the stack and the enable bit of
      the mode it went through: that bit stays cleared unless the trap came from that mode. */
  lemma TrapReturnExact(s: Cpu, a: Cpu, t: Cpu, cause: Cause, tval: Word)
    requires Valid(s) && cause.code < 32 && s.xlen in {16, 32, 64, 128}
    requires Trapped(s, a, cause, tval) && Returned(a, t, a.priv)
    ensures var lvl := a.priv;
      && t.mstatus == s.mstatus - PpMask(lvl) - (if lvl == s.priv then {} else {lvl}) + {PieBit(lvl)}
      && t.pc == s.pc && t.priv == s.priv
  {
    hide Target;
    hide CauseWord;
    hide Width;
    var lvl, p := a.priv, s.priv;
    Outside(s.mstatus, a.mstatus, PpMask(lvl) + {PieBit(lvl), lvl});
    Outside(a.mstatus, t.mstatus, PpMask(lvl) + {PieBit(lvl), p});
    NoPrevious(t.mstatus, lvl);
    var n := s.mstatus - PpMask(lvl) - (if lvl == s.priv then {} else {lvl}) + {PieBit(lvl)};
    forall i: nat
      ensures i in t.mstatus <==> i in n
    {
    }
  }

  lemma NoPrevious(m: set<nat>, lvl: nat)
    requires Pp(m, lvl) == 0
    ensures m * PpMask(lvl) == {}
  {
  }
}
