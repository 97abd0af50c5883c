/** What the page walk permits and where it leads, over the bits of page table entries
    (sections 4.3 and 4.4 of the RISC-V Privileged Architecture 20190608). */
module MmuRights {
  import opened Bits
  import opened BitSets
  import opened Hart
  import opened Mmu

  // ---------- which entry ----------

  /** An entry that leads to the next table. */
  predicate Pointer(mem: Memory, at: nat, pte: Pte) {
    at in mem && mem[at] == pte && pte.v && !pte.r && !pte.x
  }

  predicate LeafAt(mem: Memory, at: nat, pte: Pte) {
    at in mem && mem[at] == pte && pte.v && (pte.r || pte.x)
  }

  const GB: nat := 0x4000_0000
  const MB2: nat := 0x20_0000

  lemma VpnIs(va: nat)
    ensures Vpn(va, 0) == va / 4096 % 512 && Vpn(va, 1) == va / MB2 % 512
    ensures Vpn(va, 2) == va / GB % 512 && Vpn(va, 3) == va / (512 * GB) % 512
  {
    PageSize();
    Pow2Add(12, 9);
    Pow2Add(21, 9);
    Pow2Add(30, 9);
    hide Pow2;
  }

  /** Sv39: three tables, indexed by nine bits of the address each, the root's index on top. A leaf may
      be in any of them. */
  lemma WalkThree(mem: Memory, c: Cpu, va: nat, top: Pte, middle: Pte, last: Pte)
    requires c.satp / 0x1000_0000_0000_0000 == 8
    ensures var at := c.satp % 0x1000_0000_0000 * 4096 + va / GB % 512 * 8;
      var next, final := top.ppn * 4096 + va / MB2 % 512 * 8, middle.ppn * 4096 + va / 4096 % 512 * 8;
      && (LeafAt(mem, at, top) ==> FoundFor(mem, c, va) == Leaf(at, 2, top))
      && (Pointer(mem, at, top) && LeafAt(mem, next, middle) ==> FoundFor(mem, c, va) == Leaf(next, 1, middle))
      && (Pointer(mem, at, top) && Pointer(mem, next, middle) && LeafAt(mem, final, last) ==>
            FoundFor(mem, c, va) == Leaf(final, 0, last))
      && (Pointer(mem, at, top) && Pointer(mem, next, middle) && Pointer(mem, final, last) ==> FoundFor(mem, c, va).NotFound?)
  {
    VpnIs(va);
    hide Vpn;
    var base := c.satp % 0x1000_0000_0000;
    assert FoundFor(mem, c, va) == Walk(mem, base, va, 3, ZERO);
    var at := base * 4096 + va / GB % 512 * 8;
    if Pointer(mem, at, top) {
      assert Walk(mem, base, va, 3, ZERO) == Walk(mem, top.ppn, va, 2, top);
      var next := top.ppn * 4096 + va / MB2 % 512 * 8;
      if Pointer(mem, next, middle) {
        assert Walk(mem, top.ppn, va, 2, top) == Walk(mem, middle.ppn, va, 1, middle);
        if Pointer(mem, middle.ppn * 4096 + va / 4096 % 512 * 8, last) {
          assert Walk(mem, middle.ppn, va, 1, middle) == Walk(mem, last.ppn, va, 0, last);
        }
      }
    }
  }

  /** Sv48 has one table more. */
  lemma WalkFour(mem: Memory, c: Cpu, c': Cpu, va: nat, root: Pte)
    requires c.satp / 0x1000_0000_0000_0000 == 9 && c'.satp == 8 * 0x1000_0000_0000_0000 + root.ppn
    ensures var at := c.satp % 0x1000_0000_0000 * 4096 + va / (512 * GB) % 512 * 8;
      && (LeafAt(mem, at, root) ==> FoundFor(mem, c, va) == Leaf(at, 3, root))
      && (Pointer(mem, at, root) && FoundFor(mem, c', va).Leaf? ==> FoundFor(mem, c, va) == FoundFor(mem, c', va))
  {
    VpnIs(va);
    hide Vpn;
    var base := c.satp % 0x1000_0000_0000;
    assert FoundFor(mem, c, va) == Walk(mem, base, va, 4, ZERO);
    if Pointer(mem, base * 4096 + va / (512 * GB) % 512 * 8, root) {
      assert Walk(mem, base, va, 4, ZERO) == Walk(mem, root.ppn, va, 3, root);
      if FoundFor(mem, c', va).Leaf? {
        FoundSame(mem, c', va, root);
      }
    }
  }

  lemma FoundSame(mem: Memory, c: Cpu, va: nat, root: Pte)
    requires c.satp == 8 * 0x1000_0000_0000_0000 + root.ppn && FoundFor(mem, c, va).Leaf?
    ensures Walk(mem, root.ppn, va, 3, root) == FoundFor(mem, c, va)
  {
    SatpParts(root.ppn);
    hide Vpn;
    assert FoundFor(mem, c, va) == Walk(mem, root.ppn, va, 3, ZERO);
    assert root.ppn * 4096 + Vpn(va, 2) * 8 in mem;
  }

  lemma SatpParts(ppn: Ppn)
    ensures var satp := 8 * 0x1000_0000_0000_0000 + ppn; satp / 0x1000_0000_0000_0000 == 8 && satp % 0x1000_0000_0000 == ppn
  {
  }

  // ---------- what it permits ----------

  /** The privilege an access counts as: mstatus.MPRV gives loads and stores that of the stacked mode. */
  predicate As(c: Cpu, access: Access, priv: nat) {
    if 17 in c.mstatus && (access == Load || access == Store) then priv == Field(c.mstatus, MPP) else priv == c.priv
  }

  /** Translation is on: Sv39 or Sv48, outside machine mode. */
  predicate Paged(c: Cpu, priv: nat) {
    priv != PRIV_M && (c.satp / 0x1000_0000_0000_0000 == 8 || c.satp / 0x1000_0000_0000_0000 == 9)
  }

  predicate Aligned(level: nat, ppn: nat) {
    ppn % Pow2(9 * level) == 0
  }

  lemma AsIs(c: Cpu, access: Access, priv: nat)
    requires As(c, access, priv)
    ensures EffectivePriv(c, access) == priv && (Walks(c, access) <==> Paged(c, priv))
  {
  }

  /** Where translation is off, the address is physical, in machine mode as wide as the mode is; other
      modes of satp fault. */
  lemma Untranslated(mem: Memory, c: Cpu, va: nat, access: Access, priv: nat)
    requires As(c, access, priv) && !Paged(c, priv)
    ensures var o := Translate(mem, c, va, access);
      && (priv == PRIV_M && c.xlen >= 64 ==> o == Physical(va))
      && (priv == PRIV_M && c.xlen < 64 ==> o == Physical(va % Pow2(c.xlen)))
      && (priv != PRIV_M ==> o == if c.satp / 0x1000_0000_0000_0000 == 0 then Physical(va) else Fault)
      && Touched(mem, c, va, access) == mem
  {
    AsIs(c, access, priv);
    hide Pow2;
    hide EffectivePriv;
  }

  /** No leaf, no access. */
  lemma NothingFound(mem: Memory, c: Cpu, va: nat, access: Access, priv: nat)
    requires As(c, access, priv) && Paged(c, priv) && FoundFor(mem, c, va).NotFound?
    ensures Translate(mem, c, va, access) == Fault && Touched(mem, c, va, access) == mem
  {
    AsIs(c, access, priv);
    hide FoundFor;
    hide EffectivePriv;
  }

  /** A right an access needs and has not. A store needs W, a fetch X, a load R or, under MXR, X. Outside
      supervisor mode the page must be a user page; in it a user page needs SUM, for fetches too. */
  predicate Missing(c: Cpu, p: Pte, access: Access, priv: nat) {
    || (access == Store && !p.w) || (access == Fetch && !p.x) || (access == Load && !p.r && !(19 in c.mstatus && p.x))
    || (priv != PRIV_S && !p.u) || (priv == PRIV_S && p.u && 18 !in c.mstatus)
  }

  /** An access through an aligned leaf faults exactly if a right is missing. */
  lemma FaultIff(mem: Memory, c: Cpu, va: nat, access: Access, priv: nat, p: Pte)
    requires As(c, access, priv) && Paged(c, priv)
    requires var f := FoundFor(mem, c, va); f.Leaf? && p == f.pte && Aligned(f.level, p.ppn)
    ensures Translate(mem, c, va, access) == Fault <==> Missing(c, p, access, priv)
  {
    AsIs(c, access, priv);
    hide EffectivePriv;
    hide Walk;
    hide Pow2;
    hide SuperAddress;
  }

  /** What sections 4.3.1 and 4.3.2 permit: W without R is reserved, and supervisor code is never fetched from
      a user page. */
  predicate Allowed(c: Cpu, p: Pte, access: Access, priv: nat) {
    && (p.w ==> p.r) && (access == Store ==> p.w) && (access == Fetch ==> p.x)
    && (access == Load ==> p.r || (p.x && 19 in c.mstatus))
    && (if priv == PRIV_S then p.u ==> access != Fetch && 18 in c.mstatus else p.u)
  }

  /** The code agrees unless it lets one of these two through. */
  lemma AllowedIff(mem: Memory, c: Cpu, va: nat, access: Access, priv: nat, p: Pte)
    requires As(c, access, priv) && Paged(c, priv)
    requires var f := FoundFor(mem, c, va); f.Leaf? && p == f.pte && Aligned(f.level, p.ppn)
    ensures (Translate(mem, c, va, access) != Fault <==> Allowed(c, p, access, priv)) <==>
            Missing(c, p, access, priv) || ((p.w ==> p.r) && !(access == Fetch && priv == PRIV_S && p.u))
  {
    FaultIff(mem, c, va, access, priv, p);
    hide Translate;
    hide FoundFor;
  }

  /** A superpage whose page number is not aligned faults for every access. */
  lemma MisalignedFaults(mem: Memory, c: Cpu, va: nat, access: Access, priv: nat)
    requires As(c, access, priv) && Paged(c, priv)
    requires var f := FoundFor(mem, c, va); f.Leaf? && !Aligned(f.level, f.pte.ppn)
    ensures Translate(mem, c, va, access) == Fault
  {
    AsIs(c, access, priv);
    hide EffectivePriv;
    hide Walk;
  }

  /** Where an access goes: the offset within the page is kept. */
  lemma Address(mem: Memory, c: Cpu, va: nat, access: Access, priv: nat, f: Found)
    requires As(c, access, priv) && Paged(c, priv) && f == FoundFor(mem, c, va) && f.Leaf? && Translate(mem, c, va, access) != Fault
    ensures f.level == 0 ==> Translate(mem, c, va, access) == Physical(f.pte.ppn * 4096 + va % 4096)
    ensures f.level > 0 && f.pte.ppn < Pow2(44 - 9 * f.level) ==>
            Translate(mem, c, va, access) == Physical(f.pte.ppn * 4096 + va % Pow2(12 + 9 * f.level))
  {
    AsIs(c, access, priv);
    hide EffectivePriv;
    hide Walk;
    hide Pow2;
    if f.level > 0 {
      SuperpageIff(f.level, f.pte.ppn, va);
      hide SuperAddress;
    }
  }

  // ---------- what it writes ----------

  /** An access that goes through sets A on its leaf, and D exactly if it is a store; nothing else in memory
      changes. */
  lemma Writes(mem: Memory, c: Cpu, va: nat, access: Access, priv: nat, f: Found)
    requires As(c, access, priv) && Paged(c, priv) && f == FoundFor(mem, c, va) && Translate(mem, c, va, access) != Fault
    ensures f.Leaf? && f.at in mem && mem[f.at] == f.pte
    ensures Touched(mem, c, va, access) == mem[f.at := f.pte.(a := true, d := f.pte.d || access == Store)]
  {
    AsIs(c, access, priv);
    LeafStored(mem, c.satp % 0x1000_0000_0000, va, Levels(c.satp / 0x1000_0000_0000_0000), ZERO);
    hide EffectivePriv;
    hide Walk;
    hide Pow2;
    var q := f.pte.(a := true, d := f.pte.d || access == Store);
    if q == f.pte {
      assert mem[f.at := q] == mem;
    }
  }

  /** A fault leaves memory as it was, with one exception: a superpage that is not aligned has its leaf
      marked first, if the rights are there and a mark is missing. */
  lemma FaultWritesIff(mem: Memory, c: Cpu, va: nat, access: Access, priv: nat, f: Found)
    requires As(c, access, priv) && Paged(c, priv) && f == FoundFor(mem, c, va) && Translate(mem, c, va, access) == Fault
    ensures Touched(mem, c, va, access) == mem <==>
      || f.NotFound? || Aligned(f.level, f.pte.ppn) || Missing(c, f.pte, access, priv)
      || (f.pte.a && (f.pte.d || access != Store))
    ensures Touched(mem, c, va, access) != mem ==>
            f.Leaf? && Touched(mem, c, va, access) == mem[f.at := f.pte.(a := true, d := f.pte.d || access == Store)]
  {
    AsIs(c, access, priv);
    LeafStored(mem, c.satp % 0x1000_0000_0000, va, Levels(c.satp / 0x1000_0000_0000_0000), ZERO);
    hide EffectivePriv;
    hide Walk;
    hide Pow2;
    hide SuperAddress;
    if f.Leaf? {
      assert mem[f.at] == f.pte;
    }
  }

  const TOP := ZERO.(v := true, ppn := 2)
  const ODD := Pte(true, true, true, false, true, false, false, 0x80001, 0)

  lemma ExampleFound(c: Cpu)
    requires c.satp == 0x8000_0000_0000_0001
    ensures FoundFor(map[0x1000 := TOP, 0x2000 := ODD], c, 0) == Leaf(0x2000, 1, ODD)
  {
    hide FoundFor;
    hide Pow2;
    WalkThree(map[0x1000 := TOP, 0x2000 := ODD], c, 0, TOP, ODD, ZERO);
  }

  /** A user store through a 2 MiB leaf with an odd page number faults, and leaves the leaf dirty. */
  lemma FaultWritesExample(c: Cpu)
    requires c.mstatus == {} && c.priv == 0 && c.satp == 0x8000_0000_0000_0001
    ensures var mem := map[0x1000 := TOP, 0x2000 := ODD];
      && Translate(mem, c, 0, Store) == Fault
      && Touched(mem, c, 0, Store) == mem[0x2000 := ODD.(a := true, d := true)]
  {
    hide FoundFor;
    hide Translate;
    hide Touched;
    hide Pow2;
    var mem := map[0x1000 := TOP, 0x2000 := ODD];
    ExampleFound(c);
    PageSize();
    MisalignedFaults(mem, c, 0, Store, 0);
    FaultWritesIff(mem, c, 0, Store, 0, Leaf(0x2000, 1, ODD));
  }

  // ---------- fewer rights ----------

  /** `q` is a leaf with no right that `p` has not. */
  predicate Fewer(p: Pte, q: Pte) {
    && q == p.(r := q.r, w := q.w, x := q.x) && (q.r || q.x)
    && (q.r ==> p.r) && (q.w ==> p.w) && (q.x ==> p.x)
  }

  /** The walk finds the same leaf whatever its rights. */
  lemma {:induction false} WalkFewer(mem: Memory, base: nat, va: nat, levels: nat, pte: Pte, at: nat, q: Pte)
    requires !IsLeaf(pte)
    requires var f := Walk(mem, base, va, levels, pte); f.Leaf? && f.at == at && Fewer(f.pte, q)
    ensures var f := Walk(mem, base, va, levels, pte); Walk(mem[at := q], base, va, levels, pte) == Leaf(at, f.level, q)
    decreases levels
  {
    hide Vpn;
    LeafStored(mem, base, va, levels, pte);
    var here := base * 4096 + Vpn(va, levels - 1) * 8;
    var p := if here in mem then mem[here] else pte;
    if !IsLeaf(p) {
      WalkFewer(mem, p.ppn, va, levels - 1, p, at, q);
    }
  }

  /** Taking rights from a leaf never lets an access through that faulted. */
  lemma FewerRights(mem: Memory, c: Cpu, va: nat, access: Access, q: Pte)
    requires var f := FoundFor(mem, c, va); f.Leaf? && Fewer(f.pte, q)
    ensures var o := Translate(mem[FoundFor(mem, c, va).at := q], c, va, access);
      o == Fault || o == Translate(mem, c, va, access)
  {
    var f := FoundFor(mem, c, va);
    WalkFewer(mem, c.satp % 0x1000_0000_0000, va, Levels(c.satp / 0x1000_0000_0000_0000), ZERO, f.at, q);
    hide Walk;
    hide EffectivePriv;
    hide Pow2;
    hide SuperAddress;
  }

  // ---------- the two bits of mstatus ----------

  /** `c'` has the same state but for bit `k` of mstatus. */
  predicate ButFor(c: Cpu, c': Cpu, k: nat) {
    c' == c.(mstatus := c'.mstatus) && c'.mstatus - {k} == c.mstatus - {k}
  }

  lemma OtherBits(c: Cpu, c': Cpu, k: nat, access: Access)
    requires ButFor(c, c', k) && (k == 18 || k == 19)
    ensures forall b :: b != k ==> (b in c'.mstatus <==> b in c.mstatus)
    ensures EffectivePriv(c', access) == EffectivePriv(c, access)
  {
    forall b | b != k
      ensures b in c'.mstatus <==> b in c.mstatus
    {
      assert b in c.mstatus <==> b in c.mstatus - {k};
      assert b in c'.mstatus <==> b in c'.mstatus - {k};
    }
  }

  /** MXR matters to loads alone. */
  lemma LoadsAlone(mem: Memory, c: Cpu, c': Cpu, va: nat, access: Access)
    requires ButFor(c, c', 19) && access != Load
    ensures Translate(mem, c', va, access) == Translate(mem, c, va, access)
    ensures Touched(mem, c', va, access) == Touched(mem, c, va, access)
  {
    OtherBits(c, c', 19, access);
    hide Walk;
    hide Pow2;
    hide SuperAddress;
    hide EffectivePriv;
  }

  /** SUM matters to supervisor accesses to user pages alone. */
  lemma SupervisorAlone(mem: Memory, c: Cpu, c': Cpu, va: nat, access: Access, priv: nat)
    requires ButFor(c, c', 18) && As(c, access, priv)
    requires var f := FoundFor(mem, c, va); priv != PRIV_S || (f.Leaf? && !f.pte.u)
    ensures Translate(mem, c', va, access) == Translate(mem, c, va, access)
    ensures Touched(mem, c', va, access) == Touched(mem, c, va, access)
  {
    OtherBits(c, c', 18, access);
    AsIs(c, access, priv);
    hide Walk;
    hide Pow2;
    hide SuperAddress;
    hide EffectivePriv;
  }
}
