/** Saving a CSR, writing anything to it, and restoring it (regs.c:38-73, 84-386). */
module HartCsr {
  import opened Bits
  import opened BitSets
  import opened Hart
  import opened HartRuns

  /** The state after `csrrw old, csr, x; csrw csr, old`. Float CSRs come back with their
      unit marked dirty. */
  function Restored(s: Cpu, csr: nat): Cpu {
    if csr <= 3 then s.(fp := s.fp.(fs := 3)) else s
  }

  /** The written value does not select another width: its width field is ignored or
      holds the code in force. */
  predicate KeepsWidth(s: Cpu, x: Word) {
    Legal(NewMxl(s.xlen, x)) ==> NewMxl(s.xlen, x) == s.mxl
  }

  /** A CSR that can be read and written is restored exactly, with one exception: misa when
      the value written in between selects another width, since the saved value then has its
      width field in a place where it is no longer looked for. */
  lemma SaveRestore(s: Cpu, csr: nat, x: Word, junk: set<nat>)
    requires Valid(s) && CsrRead(s, csr, true, junk).Some? && CsrResult(s, csr, x).1 != NoCsr
    ensures var v := CsrRead(s, csr, true, junk).value;
      var t := CsrResult(s, csr, x).0;
      CsrResult(t, csr, v).0 == Restored(s, csr) <==> (csr == 0x301 ==> KeepsWidth(s, x))
  {
    hide Valid;
    hide CsrRead;
    hide CsrResult;
    if csr <= 3 {
      FloatRestored(s, csr, x, junk);
    } else if csr in {0x100, 0x300} {
      StatusRestored(s, csr, x, junk);
    } else if csr == 0x301 {
      MisaRestored(s, x, junk);
    } else if csr == 0x180 {
      SatpRestored(s, x, junk);
    } else if csr in SETS {
      SetsRestored(s, csr, x, junk);
    } else {
      WordsRestored(s, csr, x, junk);
    }
  }

  const SETS: set<nat> := {0x104, 0x106, 0x144, 0x302, 0x303, 0x304, 0x306, 0x344}

  lemma FloatRestored(s: Cpu, csr: nat, x: Word, junk: set<nat>)
    requires Valid(s) && csr <= 3 && CsrRead(s, csr, true, junk).Some? && CsrResult(s, csr, x).1 != NoCsr
    ensures CsrResult(CsrResult(s, csr, x).0, csr, CsrRead(s, csr, true, junk).value).0 == Restored(s, csr)
  {
    hide BitOr;
    hide Set;
    hide FloatWritten;
    hide FloatValue;
    FloatBack(s, csr, x);
  }

  lemma FloatBack(s: Cpu, csr: nat, x: Word)
    requires s.fp.fflags < 32 && s.fp.frm < 5 && FloatValue(s, csr).Some? && csr <= 3
    ensures FloatWritten(FloatWritten(s, csr, x).0, csr, FloatValue(s, csr).value).0 == Restored(s, csr)
  {
    hide BitOr;
    FcsrWord(s.fp);
    Below256(BitOr(s.fp.fflags, s.fp.frm * 32));
  }

  lemma Below256(v: nat)
    requires v < 256
    ensures v % WORD == v
  {
  }

  lemma FcsrWord(fp: FloatRegs)
    requires fp.fflags < 32 && fp.frm < 5
    ensures var v := BitOr(fp.fflags, fp.frm * 32); v < 256 && v % 32 == fp.fflags && v / 32 == fp.frm
  {
    hide BitOr;
    FiveBits();
    hide Pow2;
    MulMod(fp.frm, 32);
    BitOrDisjoint(fp.frm * 32, fp.fflags, 5);
    DivUnique(fp.frm * 32 + fp.fflags, 32, fp.frm, fp.fflags);
  }

  lemma SatpRestored(s: Cpu, x: Word, junk: set<nat>)
    requires Valid(s) && CsrRead(s, 0x180, true, junk).Some?
    ensures CsrResult(CsrResult(s, 0x180, x).0, 0x180, CsrRead(s, 0x180, true, junk).value).0 == s
  {
    hide Set;
    SatpBack(CsrResult(s, 0x180, x).0.satp, s.satp);
  }

  lemma SatpBack(satp: Word, v: Word)
    requires SatpShape(v)
    ensures SatpOf(satp, v) == v
  {
    DivMod(v, 0x1000_0000_0000_0000);
    var mode, low := v / 0x1000_0000_0000_0000, v % 0x1000_0000_0000_0000;
    DivUnique(v, 0x1000_0000_0000, mode * 0x1_0000, low);
  }

  lemma WordsRestored(s: Cpu, csr: nat, x: Word, junk: set<nat>)
    requires Valid(s) && CsrRead(s, csr, true, junk).Some? && CsrResult(s, csr, x).1 != NoCsr
    requires csr > 3 && csr !in {0x100, 0x300, 0x301, 0x180} + SETS
    ensures CsrResult(CsrResult(s, csr, x).0, csr, CsrRead(s, csr, true, junk).value).0 == s
  {
    hide Set;
    hide SupervisorWritten;
    hide MachineWritten;
    hide SupervisorValue;
    hide MachineValue;
    hide CounterValue;
    hide Valid;
    var bits := Set(x, 64);
    if csr < 0x300 {
      SupervisorWords(s, csr, x, bits, Set(CsrRead(s, csr, true, junk).value, 64));
    } else {
      if csr >= 0xB00 {
        NoCounterWritten(s, csr, x, bits);
        assert false;
      }
      MachineWords(s, csr, x, bits, Set(CsrRead(s, csr, true, junk).value, 64));
    }
  }

  /** The trap registers a mode can write whole. */
  lemma SupervisorWords(s: Cpu, csr: nat, x: Word, bits: set<nat>, v: set<nat>)
    requires Valid(s) && csr !in {0x100, 0x180} + SETS
    requires SupervisorValue(s, csr).Some? && SupervisorWritten(s, csr, x, bits).1 != NoCsr
    ensures SupervisorWritten(SupervisorWritten(s, csr, x, bits).0, csr, SupervisorValue(s, csr).value, v).0 == s
  {
    EvenEpc(s);
    hide AsWord;
    hide Even;
    hide Valid;
    hide Merge;
    hide MstatusSet;
    hide SatpOf;
    hide GetMstatus;
    assert csr in {0x105, 0x140, 0x141, 0x142, 0x143};
    var t := SupervisorWritten(s, csr, x, bits).0;
    assert t == s.(s := t.s);
    var r, q := s.s, t.s;
    match csr
    case 0x105 => assert q == r.(tvec := x);
    case 0x140 => assert q == r.(scratch := x);
    case 0x141 => assert q == r.(epc := Even(x));
    case 0x142 => assert q == r.(cause := x);
    case _ => assert q == r.(tval := x);
  }

  lemma EvenEpc(s: Cpu)
    requires Valid(s)
    ensures Even(s.s.epc) == s.s.epc && Even(s.m.epc) == s.m.epc
  {
  }

  lemma NoCounterWritten(s: Cpu, csr: nat, x: Word, bits: set<nat>)
    requires csr >= 0xB00
    ensures MachineWritten(s, csr, x, bits).1 == NoCsr
  {
  }

  lemma MachineWords(s: Cpu, csr: nat, x: Word, bits: set<nat>, v: set<nat>)
    requires Valid(s) && csr !in {0x300, 0x301} + SETS
    requires MachineValue(s, csr).Some? && MachineWritten(s, csr, x, bits).1 != NoCsr
    ensures MachineWritten(MachineWritten(s, csr, x, bits).0, csr, MachineValue(s, csr).value, v).0 == s
  {
    EvenEpc(s);
    hide AsWord;
    hide Even;
    hide Valid;
    hide Merge;
    hide MstatusSet;
    hide NewMxl;
    hide GetMstatus;
    assert csr in {0x305, 0x340, 0x341, 0x342, 0x343};
    var t := MachineWritten(s, csr, x, bits).0;
    assert t == s.(m := t.m);
    var r, q := s.m, t.m;
    match csr
    case 0x305 => assert q == r.(tvec := x);
    case 0x340 => assert q == r.(scratch := x);
    case 0x341 => assert q == r.(epc := Even(x));
    case 0x342 => assert q == r.(cause := x);
    case _ => assert q == r.(tval := x);
  }

  /** What a set register reads as, read back as a set. */
  lemma WordOfSet(s: set<nat>)
    requires forall i :: i in s ==> i < 64
    ensures Set(AsWord(s), 64) == s
  {
    hide Set;
    hide Number;
    WordIsPow();
    SetOfNumber(s, 64);
    forall i: nat
      ensures i in Set(AsWord(s), 64) <==> i in s
    {
      SetBounded(AsWord(s), i);
    }
  }

  lemma SetBounded(v: nat, i: nat)
    ensures i in Set(v, 64) ==> i < 64
  {
  }

  lemma MergeBack(m: set<nat>, x: set<nat>, mask: set<nat>, v: set<nat>)
    requires v * mask == m * mask
    ensures Merge(Merge(m, x, mask), v, mask) == m
  {
  }

  lemma SetsRestored(s: Cpu, csr: nat, x: Word, junk: set<nat>)
    requires Valid(s) && csr in SETS && CsrRead(s, csr, true, junk).Some?
    ensures CsrResult(CsrResult(s, csr, x).0, csr, CsrRead(s, csr, true, junk).value).0 == s
  {
    hide Set;
    hide AsWord;
    hide Merge;
    hide SupervisorWritten;
    hide MachineWritten;
    hide SupervisorValue;
    hide MachineValue;
    var bits := Set(x, 64);
    if csr < 0x300 {
      SupervisorSets(s, csr, x, bits);
    } else {
      MachineSets(s, csr, x, bits);
    }
  }

  lemma SupervisorSets(s: Cpu, csr: nat, x: Word, bits: set<nat>)
    requires Valid(s) && csr in SETS && csr < 0x300
    ensures SupervisorValue(s, csr).Some?
    ensures var v := SupervisorValue(s, csr).value;
      SupervisorWritten(SupervisorWritten(s, csr, x, bits).0, csr, v, Set(v, 64)).0 == s
  {
    hide Set;
    hide AsWord;
    hide Merge;
    assert s.mie <= MIE_MASK && s.mip <= MIP_MASK && s.mideleg <= MIDELEG_MASK && s.medeleg <= MEDELEG_MASK;
    assert s.m.counteren <= {0, 2} && s.s.counteren <= {0, 2};
    hide Valid;
    match csr
    case 0x104 => WordOfSet(s.mie * s.mideleg); MergeBack(s.mie, bits, s.mideleg, s.mie * s.mideleg);
    case 0x106 => WordOfSet(s.s.counteren);
    case _ => WordOfSet(s.mip * s.mideleg); MergeBack(s.mip, bits, s.mideleg, s.mip * s.mideleg);
  }

  lemma MachineSets(s: Cpu, csr: nat, x: Word, bits: set<nat>)
    requires Valid(s) && csr in SETS && csr >= 0x300
    ensures MachineValue(s, csr).Some?
    ensures var v := MachineValue(s, csr).value;
      MachineWritten(MachineWritten(s, csr, x, bits).0, csr, v, Set(v, 64)).0 == s
  {
    hide Set;
    hide MachineWritten;
    hide Valid;
    if csr in {0x302, 0x303} {
      DelegationSets(s, csr, x, bits);
    } else {
      EnableSets(s, csr, x, bits);
    }
  }

  lemma DelegationSets(s: Cpu, csr: nat, x: Word, bits: set<nat>)
    requires Valid(s) && csr in {0x302, 0x303}
    ensures var v := MachineValue(s, csr).value;
      MachineWritten(MachineWritten(s, csr, x, bits).0, csr, v, Set(v, 64)).0 == s
  {
    hide Set;
    hide AsWord;
    hide Merge;
    hide Valid;
    if csr == 0x302 {
      RegisterBack(s, s.medeleg);
      MergeBack(s.medeleg, bits, MEDELEG_MASK, s.medeleg);
    } else {
      RegisterBack(s, s.mideleg);
      MergeBack(s.mideleg, bits, MIDELEG_MASK, s.mideleg);
    }
  }

  lemma EnableSets(s: Cpu, csr: nat, x: Word, bits: set<nat>)
    requires Valid(s) && csr in {0x304, 0x306, 0x344}
    ensures var v := MachineValue(s, csr).value;
      MachineWritten(MachineWritten(s, csr, x, bits).0, csr, v, Set(v, 64)).0 == s
  {
    hide Set;
    hide AsWord;
    hide Merge;
    hide Valid;
    if csr == 0x304 {
      RegisterBack(s, s.mie);
      MergeBack(s.mie, bits, MIE_MASK, s.mie);
    } else if csr == 0x306 {
      RegisterBack(s, s.m.counteren);
      assert s.m.counteren * {0, 2} == s.m.counteren;
    } else {
      RegisterBack(s, s.mip);
      MergeBack(s.mip, bits, {SSI, STI}, s.mip);
    }
  }

  /** The machine registers kept as sets read back as they are. */
  lemma RegisterBack(s: Cpu, reg: set<nat>)
    requires Valid(s) && reg in {s.medeleg, s.mideleg, s.mie, s.m.counteren, s.mip}
    ensures Set(AsWord(reg), 64) == reg && s.m.counteren <= {0, 2}
  {
    WordOfSet(reg);
  }

  lemma StatusRestored(s: Cpu, csr: nat, x: Word, junk: set<nat>)
    requires Valid(s) && csr in {0x100, 0x300} && CsrRead(s, csr, true, junk).Some?
    ensures CsrResult(CsrResult(s, csr, x).0, csr, CsrRead(s, csr, true, junk).value).0 == s
  {
    hide Set;
    hide AsWord;
    hide GetMstatus;
    hide MstatusSet;
    hide Merge;
    var bits := Set(x, 64);
    var mask := if csr == 0x100 then SSTATUS_MASK else ALL_BITS;
    var v := AsWord(GetMstatus(s, mask));
    StatusWord(s, mask);
    if csr == 0x100 {
      var t := MstatusSet(s, Merge(s.mstatus, bits, SSTATUS_MASK));
      assert CsrResult(s, csr, x).0 == t && CsrRead(s, csr, true, junk).value == v;
      assert CsrResult(t, csr, v).0 == MstatusSet(t, Merge(t.mstatus, Set(v, 64), SSTATUS_MASK));
      hide CsrResult;
      SstatusBack(s, bits, Set(v, 64));
    } else {
      var t := MstatusSet(s, bits);
      assert CsrResult(s, csr, x).0 == t && CsrRead(s, csr, true, junk).value == v;
      assert CsrResult(t, csr, v).0 == MstatusSet(t, Set(v, 64));
      hide CsrResult;
      MstatusBack(s, bits, Set(v, 64));
    }
  }

  /** What mstatus and sstatus read as: the stored bits and FS, and above them only the summary bit. */
  lemma StatusWord(s: Cpu, mask: set<nat>)
    requires Valid(s) && mask in {SSTATUS_MASK, ALL_BITS}
    ensures var v := Set(AsWord(GetMstatus(s, mask)), 64);
      && (forall i: nat :: i in mask && i !in FS_MASK + {15, 31, 63} ==> (i in v <==> i in s.mstatus))
      && Field(v, FS) == s.fp.fs
  {
    hide Set;
    hide AsWord;
    ValidWidth(s);
    assert s.mstatus <= STORED && s.fp.fs <= 3;
    hide Valid;
    hide Field;
    StatusBits(s, mask);
    hide GetMstatus;
    LowMask(mask);
    hide SSTATUS_MASK;
    hide ALL_BITS;
    hide FS_MASK;
    LowBits(GetMstatus(s, mask));
  }

  lemma LowMask(mask: set<nat>)
    requires mask in {SSTATUS_MASK, ALL_BITS}
    ensures FS_MASK <= mask && forall i :: i in mask ==> i < 64
  {
  }

  /** Reading a register keeps its low 64 bits. */
  lemma LowBits(g: set<nat>)
    ensures var v := Set(AsWord(g), 64);
      (forall i: nat :: i < 64 ==> (i in v <==> i in g)) && Field(v, FS) == Field(g, FS)
  {
    hide Set;
    hide AsWord;
    LowWord(g, g * ALL_BITS);
  }

  lemma StatusBits(s: Cpu, mask: set<nat>)
    requires s.mstatus <= STORED && s.fp.fs <= 3 && s.xlen in {16, 32, 64, 128} && FS_MASK <= mask
    ensures var g := GetMstatus(s, mask);
      && (forall i: nat :: i in mask && i !in FS_MASK + {15, 31, 63} ==> i != 127 ==> (i in g <==> i in s.mstatus))
      && Field(g, FS) == s.fp.fs
  {
    var r := (s.mstatus + Put(s.fp.fs, FS)) * mask;
    assert Field(r, FS) == s.fp.fs;
  }

  lemma LowWord(g: set<nat>, low: set<nat>)
    requires forall i: nat :: i in low <==> i in g && i < 64
    ensures Set(AsWord(g), 64) == low
  {
    hide Set;
    hide Number;
    WordIsPow();
    SetOfNumber(g, 64);
    forall i: nat
      ensures i in Set(AsWord(g), 64) <==> i in low
    {
      SetBounded(AsWord(g), i);
    }
  }

  lemma MstatusBack(s: Cpu, bits: set<nat>, v: set<nat>)
    requires Valid(s) && Field(v, FS) == s.fp.fs
    requires forall i: nat :: i in ALL_BITS && i !in FS_MASK + {15, 31, 63} ==> (i in v <==> i in s.mstatus)
    ensures MstatusSet(MstatusSet(s, bits), v) == s
  {
    assert s.mstatus <= STORED && Legal(Field(s.mstatus, UXL));
    hide Valid;
    MergedBack(s.mstatus, bits, v);
    hide Merge;
    hide MstatusMask;
  }

  lemma MergedBack(m: set<nat>, bits: set<nat>, v: set<nat>)
    requires m <= STORED && Legal(Field(m, UXL))
    requires forall i: nat :: i in ALL_BITS && i !in FS_MASK + {15, 31, 63} ==> (i in v <==> i in m)
    ensures Merge(Merge(m, bits, MstatusMask(bits)), v, MstatusMask(v)) == m
  {
    hide Merge;
    FullMask(v, m);
    SmallMask(bits);
    WrittenBits(m, v);
    hide MstatusMask;
    MergeOver(m, bits, MstatusMask(bits), v, FULL);
  }

  /** The mask of a write with a legal width field. */
  const FULL: set<nat> := MSTATUS_MASK - FS_MASK + UXL_MASK + SXL_MASK

  lemma FullMask(v: set<nat>, m: set<nat>)
    requires Legal(Field(m, UXL))
    requires forall i: nat :: i in ALL_BITS && i !in FS_MASK + {15, 31, 63} ==> (i in v <==> i in m)
    ensures MstatusMask(v) == FULL
  {
    assert Field(v, UXL) == Field(m, UXL);
    hide Field;
    hide Legal;
  }

  lemma SmallMask(bits: set<nat>)
    ensures MstatusMask(bits) <= FULL
  {
    hide Field;
    hide Legal;
  }

  lemma WrittenBits(m: set<nat>, v: set<nat>)
    requires forall i: nat :: i in ALL_BITS && i !in FS_MASK + {15, 31, 63} ==> (i in v <==> i in m)
    ensures v * FULL == m * FULL
  {
  }

  lemma MergeOver(m: set<nat>, x: set<nat>, small: set<nat>, v: set<nat>, mask: set<nat>)
    requires small <= mask && v * mask == m * mask
    ensures Merge(Merge(m, x, small), v, mask) == m
  {
    assert Merge(m, x, small) - mask == m - mask;
  }

  lemma SstatusBack(s: Cpu, bits: set<nat>, v: set<nat>)
    requires Valid(s) && Field(v, FS) == s.fp.fs
    requires forall i: nat :: i in SSTATUS_MASK && i !in FS_MASK + {15, 31, 63} ==> (i in v <==> i in s.mstatus)
    ensures var t := MstatusSet(s, Merge(s.mstatus, bits, SSTATUS_MASK));
      MstatusSet(t, Merge(t.mstatus, v, SSTATUS_MASK)) == s
  {
    hide Width;
    var b := Merge(s.mstatus, bits, SSTATUS_MASK);
    var n := Merge(s.mstatus, b, MstatusMask(b));
    var w := Merge(n, v, SSTATUS_MASK);
    SstatusView(s.mstatus, bits, MstatusMask(b), v);
    assert Field(w, FS) == Field(v, FS);
    hide Merge;
    MstatusBack(s, b, w);
  }

  lemma SstatusView(m: set<nat>, bits: set<nat>, mask: set<nat>, v: set<nat>)
    requires forall i: nat :: i in SSTATUS_MASK && i !in FS_MASK + {15, 31, 63} ==> (i in v <==> i in m)
    ensures var w := Merge(Merge(m, Merge(m, bits, SSTATUS_MASK), mask), v, SSTATUS_MASK);
      forall i: nat :: i in ALL_BITS && i !in FS_MASK + {15, 31, 63} ==> (i in w <==> i in m)
  {
  }

  lemma MisaRestored(s: Cpu, x: Word, junk: set<nat>)
    requires Valid(s) && CsrRead(s, 0x301, true, junk).Some?
    ensures var t := CsrResult(s, 0x301, x).0;
      CsrResult(t, 0x301, CsrRead(s, 0x301, true, junk).value).0 == s <==> KeepsWidth(s, x)
  {
    hide Set;
    hide AsWord;
    hide NewMxl;
    hide Width;
    MisaWidths(s);
    hide Valid;
    MisaField(s.mxl, s.xlen);
    var t := CsrResult(s, 0x301, x).0;
    assert t.mxl != s.mxl ==> t.xlen == 96 - s.xlen;
  }

  /** From reset, selecting 32 bits and writing back the misa read before leaves the hart at 32 bits. */
  lemma MisaLostExample(junk: set<nat>)
    ensures Valid(RESET) && CsrRead(RESET, 0x301, true, junk).Some?
    ensures var v := CsrRead(RESET, 0x301, true, junk).value;
      CsrResult(CsrResult(RESET, 0x301, 0x4000_0000_0000_0000).0, 0x301, v).0 == RESET.(mxl := 1, xlen := 32)
  {
    ResetValid();
    hide Valid;
    hide AsWord;
    hide NewMxl;
    hide CsrRead;
    hide CsrResult;
    Narrowing();
    MisaField(2, 64);
    MisaStep(RESET, 0x4000_0000_0000_0000, junk);
    MisaStep(RESET.(mxl := 1, xlen := 32), AsWord(MISA + Put(2, 62)), junk);
  }

  /** A read and a write of misa from machine mode. */
  lemma MisaStep(s: Cpu, x: Word, junk: set<nat>)
    requires s.priv == PRIV_M && s.mxl in {1, 2} && s.xlen in {32, 64}
    ensures CsrRead(s, 0x301, true, junk) == Some(AsWord(MISA + Put(s.mxl, s.xlen - 2)))
    ensures var code := NewMxl(s.xlen, x);
      && (code == 1 && s.mxl == 2 ==> CsrResult(s, 0x301, x).0 == s.(mxl := 1, xlen := 32))
      && (code == 0 ==> CsrResult(s, 0x301, x).0 == s)
  {
    Widths();
    hide *;
    MisaWrite(s, x);
    MisaRead(s, junk);
  }

  lemma MisaWrite(s: Cpu, x: Word)
    ensures var code := NewMxl(s.xlen, x);
      && (code == 1 && s.mxl == 2 ==> CsrResult(s, 0x301, x).0 == s.(mxl := 1, xlen := Width(1)))
      && (code == 0 ==> CsrResult(s, 0x301, x).0 == s)
  {
    hide Set;
    hide NewMxl;
    hide Width;
    hide Merge;
    hide MstatusSet;
    hide SupervisorWritten;
    hide FloatWritten;
  }

  lemma MisaRead(s: Cpu, junk: set<nat>)
    requires s.priv == PRIV_M && s.mxl in {1, 2} && s.xlen in {32, 64}
    ensures CsrRead(s, 0x301, true, junk) == Some(AsWord(MISA + Put(s.mxl, s.xlen - 2)))
  {
    hide AsWord;
    hide Put;
    hide GetMstatus;
    hide SupervisorValue;
    hide FloatValue;
    hide CounterValue;
  }

  lemma Narrowing()
    ensures NewMxl(64, 0x4000_0000_0000_0000) == 1
  {
    Widths();
    assert Pow2(63) == 2 * Pow2(62);
    hide Pow2;
  }

  /** misa is only accessible in machine mode, at one of the two supported widths. */
  lemma MisaWidths(s: Cpu)
    requires Valid(s) && s.priv == 3
    ensures s.mxl in {1, 2} && s.xlen == Width(s.mxl) && s.xlen in {32, 64}
    ensures Width(1) == 32 && Width(2) == 64
  {
    Widths();
  }

  /** The width code is found where it was put and nowhere else. */
  lemma MisaField(mxl: nat, xlen: nat)
    requires mxl in {1, 2} && xlen in {32, 64}
    ensures NewMxl(xlen, AsWord(MISA + Put(mxl, xlen - 2))) == mxl
    ensures NewMxl(96 - xlen, AsWord(MISA + Put(mxl, xlen - 2))) == 0
  {
    hide Pow2;
    var s := MISA + Put(mxl, xlen - 2);
    TwoBits(s, xlen - 2);
    TwoBits(s, 94 - xlen);
  }

  /** Two adjacent bits of a number, as shifting and masking find them. */
  lemma TwoBits(s: set<nat>, k: nat)
    requires k <= 62
    ensures Quot(AsWord(s), Pow2(k)) % 4 == Field(s, k)
  {
    hide Pow2;
    hide Number;
    hide Quot;
    WordIsPow();
    var v := AsWord(s);
    BitOfNumber(s, 64, k);
    BitOfNumber(s, 64, k + 1);
    HalvePow(k + 1);
    HalfQuot(v, Pow2(k));
  }

  lemma HalfQuot(v: nat, p: nat)
    requires p >= 1
    ensures Quot(v, 2 * p) == Quot(v, p) / 2
  {
    DivMod(v, p);
    var q, r := v / p, v % p;
    var h, b := q / 2, q % 2;
    assert q * p == h * (2 * p) + b * p by { Distribute(2 * h, b, p); MulAssoc(h, 2, p); }
    DivUnique(v, 2 * p, h, b * p + r);
  }

  /** csrrs and csrrc on mie: exactly the writable bits among those named are set or cleared,
      and the old value is read. */
  lemma MaskedMie(s: Cpu, op: CsrOp, mask: Word, junk: set<nat>)
    requires Valid(s) && s.priv == PRIV_M && op != Swap
    ensures var bits := Set(mask, 64) * MIE_MASK;
      CsrAccessed(s, 0x304, op, mask, true, junk)
      == Some((AsWord(s.mie), s.(mie := if op == SetBits then s.mie + bits else s.mie - bits)))
  {
    assert s.mie <= MIE_MASK;
    hide Valid;
    hide Set;
    var named := Set(mask, 64);
    var val := if op == SetBits then s.mie + named else s.mie - named;
    assert forall i :: i in val ==> i < 64;
    WordOfSet(s.mie);
    WordOfSet(val);
    hide AsWord;
    MieRead(s, junk);
    MieWrite(s, AsWord(val));
    MergeMie(s.mie, named);
    hide CsrRead;
    hide CsrResult;
    hide Merge;
  }

  lemma MergeMie(mie: set<nat>, named: set<nat>)
    requires mie <= MIE_MASK
    ensures Merge(mie, mie + named, MIE_MASK) == mie + named * MIE_MASK
    ensures Merge(mie, mie - named, MIE_MASK) == mie - named * MIE_MASK
  {
  }

  lemma MieRead(s: Cpu, junk: set<nat>)
    requires s.priv == PRIV_M
    ensures CsrRead(s, 0x304, true, junk) == Some(AsWord(s.mie))
  {
    hide AsWord;
    hide GetMstatus;
  }

  lemma MieWrite(s: Cpu, val: Word)
    ensures CsrResult(s, 0x304, val) == (s.(mie := Merge(s.mie, Set(val, 64), MIE_MASK)), Written.Done)
  {
    hide Set;
    hide Merge;
  }

  // ---------- what a trap handler sees and sets ----------

  /** After an exception the CSRs of the mode entered give the interrupted pc, the cause and the trap value. */
  lemma HandlerReads(s: Cpu, t: Cpu, code: nat, tval: Word, junk: set<nat>)
    requires code < 32 && s.xlen in {16, 32, 64, 128} && Trapped(s, t, Exception(code), tval)
    ensures t.priv == 1 ==>
            && CsrRead(t, 0x141, false, junk) == Some(s.pc) && CsrRead(t, 0x142, false, junk) == Some(code)
            && CsrRead(t, 0x143, false, junk) == Some(tval)
    ensures t.priv == 3 ==>
            && CsrRead(t, 0x341, false, junk) == Some(s.pc) && CsrRead(t, 0x342, false, junk) == Some(code)
            && CsrRead(t, 0x343, false, junk) == Some(tval)
  {
    ExceptionIs(s, t, code, tval);
    hide Trapped;
    hide StackedIn;
    hide AsWord;
    hide GetMstatus;
  }

  /** A return goes to what the handler wrote to epc, bit 0 cleared. */
  lemma ReturnsTo(b: Cpu, v: Word, t: Cpu)
    requires (b.priv == 1 && Returned(CsrResult(b, 0x141, v).0, t, 1)) || (b.priv == 3 && Returned(CsrResult(b, 0x341, v).0, t, 3))
    ensures t.pc == v / 2 * 2
  {
    hide Popped;
    hide MovedWidth;
    hide Pp;
    DivMod(v, 2);
  }

  /** Exceptions enter at the address last written to the vector register of the mode they go to, rounded down
      to a multiple of 4; which mode that is, the bits written to medeleg decide. */
  lemma Vectors(c: Cpu, v: Word, t: Cpu, code: nat, tval: Word)
    requires code < 32 && c.xlen in {16, 32, 64, 128}
    ensures Trapped(CsrResult(c, 0x105, v).0, t, Exception(code), tval) && t.priv == 1 ==> t.pc == v / 4 * 4
    ensures Trapped(CsrResult(c, 0x305, v).0, t, Exception(code), tval) && t.priv == 3 ==> t.pc == v / 4 * 4
    ensures code < 16 && Trapped(CsrResult(c, 0x302, v).0, t, Exception(code), tval) ==>
            t.priv == if c.priv <= 1 && BitOf(v, code) then 1 else 3
  {
    var c1, c3, cd := CsrResult(c, 0x105, v).0, CsrResult(c, 0x305, v).0, CsrResult(c, 0x302, v).0;
    if code < 16 {
      MedelegBits(c, v, code);
    }
    hide Trapped;
    hide MstatusSet;
    hide Set;
    hide BitOf;
    hide Merge;
    if Trapped(c1, t, Exception(code), tval) {
      ExceptionIs(c1, t, code, tval);
    }
    if Trapped(c3, t, Exception(code), tval) {
      ExceptionIs(c3, t, code, tval);
    }
    if Trapped(cd, t, Exception(code), tval) {
      ExceptionIs(cd, t, code, tval);
    }
    hide StackedIn;
  }

  lemma MedelegBits(c: Cpu, v: Word, code: nat)
    requires code < 16
    ensures code in Merge(c.medeleg, Set(v, 64), MEDELEG_MASK) <==> BitOf(v, code)
  {
    hide BitOf;
  }

  // ---------- what a write does to what is read ----------

  // tvec, scratch, epc, cause and tval
  const OWN_S: set<nat> := {0x105, 0x140, 0x141, 0x142, 0x143}
  const OWN_M: set<nat> := {0x305, 0x340, 0x341, 0x342, 0x343}

  /** The words of a mode's trap registers by CSR number. */
  predicate WordIs(r: TrapRegs, csr: nat, v: Word) {
    match csr % 0x100
    case 0x05 => r.tvec == v
    case 0x40 => r.scratch == v
    case 0x41 => r.epc == v
    case 0x42 => r.cause == v
    case 0x43 => r.tval == v
    case _ => false
  }

  lemma SameStatus(c: Cpu, t: Cpu, mask: set<nat>)
    requires t.mstatus == c.mstatus && t.fp == c.fp && t.xlen == c.xlen
    ensures GetMstatus(t, mask) == GetMstatus(c, mask)
  {
    hide Put;
  }

  /** The same hart but for words of the trap registers. */
  predicate ButWords(c: Cpu, t: Cpu) {
    t == c.(s := t.s, m := t.m) && t.s.counteren == c.s.counteren && t.m.counteren == c.m.counteren
  }

  lemma OthersSame(c: Cpu, t: Cpu, csr: nat, junk: set<nat>)
    requires ButWords(c, t)
    ensures FloatValue(t, csr) == FloatValue(c, csr) && CounterValue(t, csr, junk) == CounterValue(c, csr, junk)
  {
    hide BitOr;
  }

  lemma SupervisorSame(c: Cpu, t: Cpu, csr: nat)
    requires ButWords(c, t)
    ensures csr in OWN_S ==> SupervisorValue(t, csr).Some? && WordIs(t.s, csr, SupervisorValue(t, csr).value)
    ensures csr !in OWN_S ==> SupervisorValue(t, csr) == SupervisorValue(c, csr)
  {
    SameStatus(c, t, SSTATUS_MASK);
    hide AsWord;
    hide GetMstatus;
  }

  lemma MachineOwn(t: Cpu, csr: nat)
    requires csr in OWN_M
    ensures MachineValue(t, csr).Some? && WordIs(t.m, csr, MachineValue(t, csr).value)
  {
    hide AsWord;
    hide GetMstatus;
    hide Put;
  }

  lemma MachineSame(c: Cpu, t: Cpu, csr: nat)
    requires ButWords(c, t) && csr !in OWN_M
    ensures MachineValue(t, csr) == MachineValue(c, csr)
  {
    hide AsWord;
    hide GetMstatus;
    hide Put;
    SameStatus(c, t, ALL_BITS);
  }

  /** Only those words are read from the trap registers. */
  lemma ReadsOf(c: Cpu, t: Cpu, csr: nat, junk: set<nat>)
    requires ButWords(c, t) && c.priv == 3
    ensures csr in OWN_S ==> CsrRead(t, csr, false, junk).Some? && WordIs(t.s, csr, CsrRead(t, csr, false, junk).value)
    ensures csr in OWN_M ==> CsrRead(t, csr, false, junk).Some? && WordIs(t.m, csr, CsrRead(t, csr, false, junk).value)
    ensures csr !in OWN_S + OWN_M ==> CsrRead(t, csr, false, junk) == CsrRead(c, csr, false, junk)
  {
    OthersSame(c, t, csr, junk);
    SupervisorSame(c, t, csr);
    if csr in OWN_M {
      MachineOwn(t, csr);
    } else {
      MachineSame(c, t, csr);
    }
    hide FloatValue;
    hide CounterValue;
    hide SupervisorValue;
    hide MachineValue;
    hide WordIs;
  }

  /** `r` is `q` but for the word with this number, which is `v`. */
  predicate OneWord(q: TrapRegs, r: TrapRegs, csr: nat, v: Word) {
    && WordIs(r, csr, v) && r.counteren == q.counteren
    && (csr % 0x100 != 0x05 ==> r.tvec == q.tvec) && (csr % 0x100 != 0x40 ==> r.scratch == q.scratch)
    && (csr % 0x100 != 0x41 ==> r.epc == q.epc) && (csr % 0x100 != 0x42 ==> r.cause == q.cause)
    && (csr % 0x100 != 0x43 ==> r.tval == q.tval)
  }

  function Stored(csr: nat, v: Word): Word {
    if csr % 0x100 == 0x41 then v / 2 * 2 else v
  }

  lemma WordWritten(c: Cpu, csr: nat, v: Word)
    ensures var t := CsrResult(c, csr, v).0;
      && (csr in OWN_S ==> t == c.(s := t.s) && OneWord(c.s, t.s, csr, Stored(csr, v)))
      && (csr in OWN_M ==> t == c.(m := t.m) && OneWord(c.m, t.m, csr, Stored(csr, v)))
  {
    DivMod(v, 2);
    hide Set;
    hide Merge;
    hide MstatusSet;
  }

  lemma SameWord(q: TrapRegs, r: TrapRegs, csr: nat, v: Word, other: nat, x: Word, y: Word)
    requires OneWord(q, r, csr, v) && other % 0x100 != csr % 0x100 && WordIs(q, other, x) && WordIs(r, other, y)
    ensures x == y
  {
  }

  lemma OwnNumber(csr: nat, other: nat)
    requires (csr in OWN_S && other in OWN_S) || (csr in OWN_M && other in OWN_M)
    ensures other % 0x100 == csr % 0x100 <==> other == csr
  {
  }

  lemma WordRead(r: TrapRegs, csr: nat, v: Word, w: Word)
    requires WordIs(r, csr, v) && WordIs(r, csr, w)
    ensures v == w
  {
  }

  /** The trap registers of both modes are ten words of their own: each reads back as written, epc with bit 0
      cleared, and then no other CSR reads differently. */
  lemma WordsApart(c: Cpu, csr: nat, v: Word, other: nat, junk: set<nat>)
    requires csr in OWN_S + OWN_M && c.priv == 3
    ensures var t := CsrResult(c, csr, v).0;
      && CsrRead(t, csr, false, junk) == Some(if csr == 0x141 || csr == 0x341 then v / 2 * 2 else v)
      && (other != csr ==> CsrRead(t, other, false, junk) == CsrRead(c, other, false, junk))
  {
    hide CsrRead;
    hide CsrResult;
    var t := CsrResult(c, csr, v).0;
    WordWritten(c, csr, v);
    ReadsOf(c, t, csr, junk);
    ReadsOf(c, t, other, junk);
    ReadsOf(c, c, other, junk);
    if csr in OWN_S {
      WordRead(t.s, csr, CsrRead(t, csr, false, junk).value, Stored(csr, v));
      if other in OWN_S && other != csr {
        OwnNumber(csr, other);
        SameWord(c.s, t.s, csr, Stored(csr, v), other, CsrRead(c, other, false, junk).value, CsrRead(t, other, false, junk).value);
      }
      if other in OWN_M {
        WordRead(c.m, other, CsrRead(c, other, false, junk).value, CsrRead(t, other, false, junk).value);
      }
    } else {
      WordRead(t.m, csr, CsrRead(t, csr, false, junk).value, Stored(csr, v));
      if other in OWN_M && other != csr {
        OwnNumber(csr, other);
        SameWord(c.m, t.m, csr, Stored(csr, v), other, CsrRead(c, other, false, junk).value, CsrRead(t, other, false, junk).value);
      }
      if other in OWN_S {
        WordRead(c.s, other, CsrRead(c, other, false, junk).value, CsrRead(t, other, false, junk).value);
      }
    }
    hide WordIs;
    hide OneWord;
  }

  /** The bits of the masks and of the pending and enabled interrupts after a machine-mode write of `v`. */
  lemma BitsWritten(c: Cpu, v: Word, i: nat)
    requires i < 64
    ensures i in CsrResult(c, 0x302, v).0.medeleg <==> if i < 16 then BitOf(v, i) else i in c.medeleg
    ensures i in CsrResult(c, 0x303, v).0.mideleg <==> if i in {1, 5, 9} then BitOf(v, i) else i in c.mideleg
    ensures i in CsrResult(c, 0x304, v).0.mie <==> if i in {1, 3, 5, 7, 9} then BitOf(v, i) else i in c.mie
    ensures i in CsrResult(c, 0x344, v).0.mip <==> if i in {1, 5} then BitOf(v, i) else i in c.mip
    ensures i in CsrResult(c, 0x104, v).0.mie <==> if i in c.mideleg then BitOf(v, i) else i in c.mie
    ensures i in CsrResult(c, 0x144, v).0.mip <==> if i in c.mideleg then BitOf(v, i) else i in c.mip
  {
    hide BitOf;
    hide MstatusSet;
  }

  /** And those of mstatus, FS aside: from machine mode, and through sstatus. */
  lemma StatusWritten(c: Cpu, v: Word, i: nat)
    requires i < 64 && i !in {32, 33, 34, 35}
    ensures i in CsrResult(c, 0x300, v).0.mstatus <==>
            if i in {0, 1, 3, 4, 5, 7, 8, 11, 12, 17, 18, 19} then BitOf(v, i) else i in c.mstatus
    ensures i in CsrResult(c, 0x100, v).0.mstatus <==>
            if i in {0, 1, 4, 5, 8, 18, 19} then BitOf(v, i) else i in c.mstatus
    ensures CsrResult(c, 0x300, v).0.fp == c.fp.(fs := Field(Set(v, 64), 13))
  {
    hide BitOf;
    hide Field;
    hide Legal;
  }

  lemma FromParts(w: nat)
    ensures w == w / 32 * 32 + w % 32
  {
    DivMod(w, 32);
  }

  /** The floating-point CSRs: fcsr is frm above fflags, rounding modes above 4 become 0, and a write marks the
      unit dirty. */
  lemma FloatCsrs(c: Cpu, v: Word, junk: set<nat>)
    requires c.fp.fs != 0 && c.fp.fflags < 32 && c.fp.frm < 5
    ensures CsrRead(c, 0x001, false, junk) == Some(c.fp.fflags) && CsrRead(c, 0x002, false, junk) == Some(c.fp.frm)
    ensures CsrRead(c, 0x003, false, junk) == Some(c.fp.frm * 32 + c.fp.fflags)
    ensures CsrResult(c, 0x001, v).0.fp == FloatRegs(3, v % 32, c.fp.frm)
    ensures CsrResult(c, 0x002, v).0.fp == FloatRegs(3, c.fp.fflags, if v % 8 < 5 then v % 8 else 0)
    ensures CsrResult(c, 0x003, v).0.fp == FloatRegs(3, v % 32, if v / 32 % 8 < 5 then v / 32 % 8 else 0)
  {
    hide BitOr;
    hide Set;
    FcsrWord(c.fp);
    var w := BitOr(c.fp.fflags, c.fp.frm * 32);
    Below256(w);
    FromParts(w);
  }
}
