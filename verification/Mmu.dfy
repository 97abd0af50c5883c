/** Address translation and the accessed and dirty bits (iomap.c:115-305). */
module Mmu {
  import opened Bits
  import opened BitSets
  import opened Hart

  const MPRV: nat := 17
  const SUM: nat := 18
  const MXR: nat := 19

  /** The kinds of access: the permission bit each one needs. */
  datatype Access = Load | Store | Fetch

  type Ppn = n: nat | n < 0x1000_0000_0000

  /** A page table entry; `rest` holds the bits the walk ignores. */
  datatype Pte = Pte(v: bool, r: bool, w: bool, x: bool, u: bool, a: bool, d: bool, ppn: Ppn, rest: nat)

  const ZERO := Pte(false, false, false, false, false, false, false, 0, 0)

  /** The readable memory that can hold page tables, by the address of each entry. */
  type Memory = map<nat, Pte>

  predicate IsLeaf(pte: Pte) {
    pte.r || pte.x
  }

  // ---------- what a walk decides ----------

  datatype Found = NotFound | Leaf(at: nat, level: nat, pte: Pte)

  /** The walk from table page `base` with `levels` levels to go. An unreadable entry leaves
      the variable `pte` as the level above set it. */
  function Walk(mem: Memory, base: nat, va: nat, levels: nat, pte: Pte): (f: Found)
    ensures f.Leaf? ==> f.level < levels && f.pte.v
    decreases levels
  {
    if levels == 0 then NotFound
    else
      var at := base * 4096 + Vpn(va, levels - 1) * 8;
      var p := if at in mem then mem[at] else pte;
      if !p.v then NotFound
      else if IsLeaf(p) then Leaf(at, levels - 1, p)
      else Walk(mem, p.ppn, va, levels - 1, p)
  }

  function Vpn(va: nat, level: nat): nat {
    Rem(Quot(va, Pow2(12 + 9 * level)), 512)
  }

  /** The privilege whose rights apply: MPRV lends loads and stores the stacked one. */
  function EffectivePriv(c: Cpu, access: Access): nat {
    if MPRV in c.mstatus && access != Fetch then Field(c.mstatus, MPP) else c.priv
  }

  predicate Permitted(c: Cpu, pte: Pte, access: Access, priv: nat) {
    && (if priv == PRIV_S then pte.u ==> SUM in c.mstatus else pte.u)
    && match access
       case Load => pte.r || (pte.x && MXR in c.mstatus)
       case Store => pte.w
       case Fetch => pte.x
  }

  predicate NeedsWrite(pte: Pte, access: Access) {
    !pte.a || (!pte.d && access == Store)
  }

  function Marked(pte: Pte, access: Access): Pte {
    pte.(a := true, d := pte.d || access == Store)
  }

  datatype Outcome = Fault | Physical(address: nat)

  /** The address in a superpage. The mask shifted to clear the low bits of the page number
      clears as many high ones instead. */
  function SuperAddress(level: nat, ppn: Ppn, va: nat): nat
    requires 1 <= level <= 3
  {
    Rem(ppn, Pow2(44 - 9 * level)) * 4096 + Rem(va, Pow2(12 + 9 * level))
  }

  function LeafOutcome(c: Cpu, va: nat, access: Access, priv: nat, f: Found): Outcome {
    if f.NotFound? || !Permitted(c, f.pte, access, priv) then Fault
    else if f.level == 0 then Physical(f.pte.ppn * 4096 + va % 4096)
    else if f.pte.ppn % Pow2(9 * f.level) != 0 then Fault
    else if f.level > 3 then Fault
    else Physical(SuperAddress(f.level, f.pte.ppn, va))
  }

  /** The number of levels of a translation mode. */
  function Levels(mode: nat): nat {
    if mode == 8 then 3 else if mode == 9 then 4 else 0
  }

  predicate Walks(c: Cpu, access: Access) {
    EffectivePriv(c, access) != PRIV_M && c.satp / 0x1000_0000_0000_0000 in {8, 9}
  }

  function FoundFor(mem: Memory, c: Cpu, va: nat): Found {
    Walk(mem, c.satp % 0x1000_0000_0000, va, Levels(c.satp / 0x1000_0000_0000_0000), ZERO)
  }

  /** Where an access goes. */
  function Translate(mem: Memory, c: Cpu, va: nat, access: Access): Outcome {
    if EffectivePriv(c, access) == PRIV_M then Physical(if c.xlen < 64 then va % Pow2(c.xlen) else va)
    else if c.satp / 0x1000_0000_0000_0000 == 0 then Physical(va)
    else if Walks(c, access) then LeafOutcome(c, va, access, EffectivePriv(c, access), FoundFor(mem, c, va))
    else Fault
  }

  /** Memory after an access: the leaf of a permitted walk is marked. */
  function Touched(mem: Memory, c: Cpu, va: nat, access: Access): Memory {
    if !Walks(c, access) then mem
    else
      var f := FoundFor(mem, c, va);
      if f.NotFound? || !Permitted(c, f.pte, access, EffectivePriv(c, access)) || !NeedsWrite(f.pte, access) then mem
      else mem[f.at := Marked(f.pte, access)]
  }

  lemma NoLeaf(c: Cpu, va: nat, access: Access, priv: nat)
    ensures LeafOutcome(c, va, access, priv, NotFound) == Fault
  {
  }

  // ---------- the walker ----------

  class Mmu {
    var memory: Memory

    constructor (mem: Memory)
      ensures memory == mem
    {
      memory := mem;
    }

    /** translate_action. */
    method TranslateAction(c: Cpu, ppn: nat, va: nat, levels: nat, access: Access, priv: nat) returns (o: Outcome)
      requires levels <= 4
      modifies this
      ensures var f := Walk(old(memory), ppn, va, levels, ZERO);
        && o == LeafOutcome(c, va, access, priv, f)
        && memory == if f.Leaf? && Permitted(c, f.pte, access, priv) && NeedsWrite(f.pte, access)
                     then old(memory)[f.at := Marked(f.pte, access)] else old(memory)
    {
      hide Vpn;
      hide LeafOutcome;
      hide Permitted;
      var base: nat, pte, i: nat := ppn, ZERO, levels;
      while i > 0
        invariant 0 <= i <= levels && memory == old(memory)
        invariant Walk(memory, ppn, va, levels, ZERO) == Walk(memory, base, va, i, pte)
        decreases i
      {
        i := i - 1;
        var at := base * 4096 + Vpn(va, i) * 8;
        if at in memory {
          pte := memory[at];
        }
        if !pte.v {
          o := Fault;
          NoLeaf(c, va, access, priv);
          return;
        }
        if !(pte.r || pte.x) {
          base := pte.ppn;
          continue;
        }
        o := LeafFound(c, at, i, pte, va, access, priv);
        return;
      }
      NoLeaf(c, va, access, priv);
      return Fault;
    }

    /** The user bit, then the permission bits. */
    method Allowed(c: Cpu, pte: Pte, access: Access, priv: nat) returns (ok: bool)
      ensures ok <==> Permitted(c, pte, access, priv)
    {
      if priv == PRIV_S {
        if pte.u && SUM !in c.mstatus {
          return false;
        }
      } else {
        if !pte.u {
          return false;
        }
      }
      var readable := pte.r || (MXR in c.mstatus && pte.x);
      return match access case Load => readable case Store => pte.w case Fetch => pte.x;
    }

    /** The rest of the loop body once a leaf is found. */
    method LeafFound(c: Cpu, at: nat, i: nat, entry: Pte, va: nat, access: Access, priv: nat) returns (o: Outcome)
      requires i <= 3
      modifies this
      ensures o == LeafOutcome(c, va, access, priv, Leaf(at, i, entry))
      ensures memory == if Permitted(c, entry, access, priv) && NeedsWrite(entry, access)
                        then old(memory)[at := Marked(entry, access)] else old(memory)
    {
      hide Pow2;
      hide Permitted;
      var pte := entry;
      var allowed := Allowed(c, pte, access, priv);
      if !allowed {
        return Fault;
      }
      var needWrite := !pte.a || (!pte.d && access == Store);
      pte := pte.(a := true);
      if access == Store {
        pte := pte.(d := true);
      }
      if needWrite {
        memory := memory[at := pte];
      }
      if i > 0 {
        if pte.ppn % Pow2(9 * i) != 0 {
          return Fault;
        }
        var address := SuperpageAddress(i, pte.ppn, va);
        return Physical(address);
      }
      return Physical(pte.ppn * 4096 + va % 4096);
    }

    /** The superpage branch. The distance of the shift that narrows the mask is the mask itself
        times `i` plus 10; its low six bits are those of 10, and they are what a 64-bit shift
        goes by. The mask then covers the low `44 - 9 * i` bits of the page number. */
    method SuperpageAddress(i: nat, ppn: Ppn, va: nat) returns (result: nat)
      requires 1 <= i <= 3 && Rem(ppn, Pow2(9 * i)) == 0
      ensures result == SuperAddress(i, ppn, va)
    {
      hide Pow2;
      hide BitOr;
      hide Vpn;
      hide Rem;
      result := 0;
      LowPages(va, 0);
      var j := 0;
      while j < i
        invariant j <= i && result == Rem(Quot(va, 4096), Pow2(9 * j))
      {
        OrPage(va, j);
        result := BitOr(result, Vpn(va, j) * Pow2(9 * j));
        j := j + 1;
      }
      var frame := Rem(ppn, Pow2(44 - 9 * i));
      OrFrame(i, ppn, va);
      result := BitOr(result * 4096, BitOr(frame * 4096, Rem(va, 4096)));
    }

    /** address_translate. */
    method AddressTranslate(c: Cpu, va: nat, access: Access) returns (o: Outcome)
      modifies this
      ensures o == Translate(old(memory), c, va, access) && memory == Touched(old(memory), c, va, access)
    {
      var priv := if MPRV in c.mstatus && access != Fetch then Field(c.mstatus, MPP) else c.priv;
      if priv == PRIV_M {
        return Physical(if c.xlen < 64 then va % Pow2(c.xlen) else va);
      }
      var mode, ppn := c.satp / 0x1000_0000_0000_0000, c.satp % 0x1000_0000_0000;
      if mode == 0 {
        return Physical(va);
      } else if mode == 8 {
        o := TranslateAction(c, ppn, va, 3, access, priv);
      } else if mode == 9 {
        o := TranslateAction(c, ppn, va, 4, access, priv);
      } else {
        return Fault;
      }
    }
  }

  // ---------- marking changes no translation ----------

  /** Two entries that differ at most in the bits a walk writes; only leaves may differ. */
  predicate Alike(p: Pte, q: Pte) {
    q == p.(a := q.a, d := q.d) && (IsLeaf(p) || q == p)
  }

  ghost predicate AlikeMemory(mem: Memory, mem': Memory) {
    mem.Keys == mem'.Keys && forall at :: at in mem ==> Alike(mem[at], mem'[at])
  }

  predicate AlikeFound(f: Found, g: Found) {
    if f.NotFound? then g.NotFound? else g.Leaf? && g.at == f.at && g.level == f.level && Alike(f.pte, g.pte)
  }

  lemma {:induction false} WalkAlike(mem: Memory, mem': Memory, base: nat, va: nat, levels: nat, pte: Pte)
    requires AlikeMemory(mem, mem') && !IsLeaf(pte)
    ensures AlikeFound(Walk(mem, base, va, levels, pte), Walk(mem', base, va, levels, pte))
    decreases levels
  {
    if levels > 0 {
      var at := base * 4096 + Vpn(va, levels - 1) * 8;
      var p := if at in mem then mem[at] else pte;
      if p.v && !IsLeaf(p) {
        WalkAlike(mem, mem', p.ppn, va, levels - 1, p);
      }
    }
  }

  /** A found leaf is an entry of memory: an unreadable entry never ends a walk successfully. */
  lemma {:induction false} LeafStored(mem: Memory, base: nat, va: nat, levels: nat, pte: Pte)
    requires !IsLeaf(pte)
    ensures var f := Walk(mem, base, va, levels, pte); f.Leaf? ==> f.at in mem && mem[f.at] == f.pte && IsLeaf(f.pte)
    decreases levels
  {
    if levels > 0 {
      var at := base * 4096 + Vpn(va, levels - 1) * 8;
      var p := if at in mem then mem[at] else pte;
      if p.v && !IsLeaf(p) {
        LeafStored(mem, p.ppn, va, levels - 1, p);
      }
    }
  }

  lemma TouchedAlike(mem: Memory, c: Cpu, va: nat, access: Access)
    ensures AlikeMemory(mem, Touched(mem, c, va, access))
  {
    hide Walk;
    hide Permitted;
    LeafStored(mem, c.satp % 0x1000_0000_0000, va, Levels(c.satp / 0x1000_0000_0000_0000), ZERO);
  }

  lemma AlikeTranslates(mem: Memory, mem': Memory, c: Cpu, va: nat, access: Access)
    requires AlikeMemory(mem, mem')
    ensures Translate(mem', c, va, access) == Translate(mem, c, va, access)
  {
    hide Walk;
    hide EffectivePriv;
    WalkAlike(mem, mem', c.satp % 0x1000_0000_0000, va, Levels(c.satp / 0x1000_0000_0000_0000), ZERO);
  }

  /** Whatever one access marks, every address translates as before, for every kind of
      access, privilege, status and root table: same address or same fault. */
  lemma TranslationsUnchanged(mem: Memory, c: Cpu, va: nat, access: Access, c': Cpu, va': nat, access': Access)
    ensures Translate(Touched(mem, c, va, access), c', va', access') == Translate(mem, c', va', access')
  {
    TouchedAlike(mem, c, va, access);
    AlikeTranslates(mem, Touched(mem, c, va, access), c', va', access');
  }

  /** Repeating an access writes nothing, and neither does a load or fetch after a store
      that was allowed. */
  lemma RepeatWritesNothing(mem: Memory, c: Cpu, va: nat, access: Access, again: Access)
    requires again == access || (access == Store && Translate(mem, c, va, Store) != Fault
                                 && EffectivePriv(c, again) == EffectivePriv(c, Store))
    ensures var mem' := Touched(mem, c, va, access); Touched(mem', c, va, again) == mem'
  {
    hide Walk;
    hide EffectivePriv;
    TouchedAlike(mem, c, va, access);
    var mem' := Touched(mem, c, va, access);
    var base, levels := c.satp % 0x1000_0000_0000, Levels(c.satp / 0x1000_0000_0000_0000);
    WalkAlike(mem, mem', base, va, levels, ZERO);
    LeafStored(mem, base, va, levels, ZERO);
    LeafStored(mem', base, va, levels, ZERO);
  }

  /** What an access that translates through a table leaves behind: its leaf is accessed,
      dirty after a store, and dirty only after a store. */
  lemma LeafMarked(mem: Memory, c: Cpu, va: nat, access: Access)
    requires Walks(c, access) && Translate(mem, c, va, access) != Fault
    ensures var mem', f := Touched(mem, c, va, access), FoundFor(mem, c, va);
      && f.Leaf? && f.at in mem' && mem'[f.at].a
      && (mem'[f.at].d <==> f.pte.d || access == Store)
      && (forall at :: at in mem && at != f.at ==> at in mem' && mem'[at] == mem[at])
  {
    hide Walk;
    hide EffectivePriv;
    LeafStored(mem, c.satp % 0x1000_0000_0000, va, Levels(c.satp / 0x1000_0000_0000_0000), ZERO);
  }

  /** The entry an access marks, or -1. */
  function Target(mem: Memory, c: Cpu, va: nat, access: Access): int {
    if !Walks(c, access) then -1
    else
      var f := FoundFor(mem, c, va);
      if f.Leaf? && Permitted(c, f.pte, access, EffectivePriv(c, access)) then f.at else -1
  }

  function MarkAt(mem: Memory, at: int, access: Access): Memory {
    if at >= 0 && at in mem then mem[at := Marked(mem[at], access)] else mem
  }

  lemma TouchedIs(mem: Memory, c: Cpu, va: nat, access: Access)
    ensures Touched(mem, c, va, access) == MarkAt(mem, Target(mem, c, va, access), access)
  {
    hide Walk;
    hide EffectivePriv;
    LeafStored(mem, c.satp % 0x1000_0000_0000, va, Levels(c.satp / 0x1000_0000_0000_0000), ZERO);
  }

  lemma TargetAlike(mem: Memory, mem': Memory, c: Cpu, va: nat, access: Access)
    requires AlikeMemory(mem, mem')
    ensures Target(mem', c, va, access) == Target(mem, c, va, access)
  {
    hide Walk;
    hide EffectivePriv;
    WalkAlike(mem, mem', c.satp % 0x1000_0000_0000, va, Levels(c.satp / 0x1000_0000_0000_0000), ZERO);
  }

  lemma MarksCommute(mem: Memory, at: int, access: Access, at': int, access': Access)
    ensures MarkAt(MarkAt(mem, at, access), at', access') == MarkAt(MarkAt(mem, at', access'), at, access)
  {
  }

  /** Two accesses mark the same bits in either order. */
  lemma TouchesCommute(mem: Memory, c: Cpu, va: nat, access: Access, c': Cpu, va': nat, access': Access)
    ensures Touched(Touched(mem, c, va, access), c', va', access')
         == Touched(Touched(mem, c', va', access'), c, va, access)
  {
    hide *;
    var one, two := Touched(mem, c, va, access), Touched(mem, c', va', access');
    TouchedAlike(mem, c, va, access);
    TouchedAlike(mem, c', va', access');
    TargetAlike(mem, two, c, va, access);
    TargetAlike(mem, one, c', va', access');
    TouchedIs(mem, c, va, access);
    TouchedIs(mem, c', va', access');
    TouchedIs(two, c, va, access);
    TouchedIs(one, c', va', access');
    MarksCommute(mem, Target(mem, c, va, access), access, Target(mem, c', va', access'), access');
  }

  // ---------- superpage addresses ----------

  lemma LowPages(va: nat, j: nat)
    requires j == 0
    ensures Rem(Quot(va, 4096), Pow2(9 * j)) == 0
  {
  }

  /** ORing in the next part of the virtual page number. */
  lemma OrPage(va: nat, j: nat)
    ensures BitOr(Rem(Quot(va, 4096), Pow2(9 * j)), Vpn(va, j) * Pow2(9 * j))
         == Rem(Quot(va, 4096), Pow2(9 * (j + 1)))
  {
    var x, p := Quot(va, 4096), Pow2(9 * j);
    PageSize();
    Pow2Add(12, 9 * j);
    Pow2Add(9 * j, 9);
    hide Pow2;
    hide BitOr;
    DivNonneg(va, 4096);
    QuotQuot(va, 4096, p);
    RemSplit(x, p);
    MulMod(Vpn(va, j), p);
    DivMod(x, p);
    BitOrDisjoint(Vpn(va, j) * p, Rem(x, p), 9 * j);
    OrSwaps(Vpn(va, j) * p, Rem(x, p));
  }

  lemma PageSize()
    ensures Pow2(12) == 4096 && Pow2(9) == 512
  {
    assert Pow2(6) == 64;
    Pow2Add(6, 6);
    Pow2Add(6, 3);
  }

  lemma {:induction false} OrSwaps(a: nat, b: nat)
    ensures BitOr(a, b) == BitOr(b, a)
    decreases a + b
  {
    if a != 0 || b != 0 {
      OrSwaps(a / 2, b / 2);
    }
  }

  lemma QuotQuot(a: nat, p: nat, q: nat)
    requires p >= 1 && q >= 1
    ensures Quot(Quot(a, p), q) == Quot(a, p * q)
  {
    var x := a / p;
    DivMod(a, p);
    DivMod(x, q);
    var y := x / q;
    assert x * p == y * (p * q) + x % q * p by {
      Distribute(y * q, x % q, p);
      MulAssoc(y, q, p);
    }
    MulOrder(x % q + 1, q, p);
    Distribute(x % q, 1, p);
    DivUnique(a, p * q, y, x % q * p + a % p);
  }

  lemma RemSplit(x: nat, p: nat)
    requires p >= 1
    ensures Rem(x, p * 512) == Rem(Quot(x, p), 512) * p + Rem(x, p)
  {
    DivMod(x, p);
    DivMod(x / p, 512);
    var y, z, r := x / p / 512, x / p % 512, x % p;
    assert x / p * p == y * (p * 512) + z * p by {
      Distribute(y * 512, z, p);
      MulAssoc(y, 512, p);
    }
    RemBelow(z, r, p);
    DivUnique(x, p * 512, y, z * p + r);
  }

  lemma RemBelow(z: nat, r: nat, p: nat)
    requires z < 512 && r < p
    ensures 0 <= z * p + r < p * 512
  {
    MulOrder(z + 1, 512, p);
    Distribute(z, 1, p);
  }

  /** The frame, the pages below it and the offset do not overlap. */
  lemma OrFrame(i: nat, ppn: Ppn, va: nat)
    requires 1 <= i <= 3 && Rem(ppn, Pow2(9 * i)) == 0
    ensures var frame := Rem(ppn, Pow2(44 - 9 * i));
      BitOr(Rem(Quot(va, 4096), Pow2(9 * i)) * 4096, BitOr(frame * 4096, Rem(va, 4096))) == SuperAddress(i, ppn, va)
  {
    var p, frame := Pow2(9 * i), Rem(ppn, Pow2(44 - 9 * i));
    var pages, offset := Rem(Quot(va, 4096), p), Rem(va, 4096);
    PageSize();
    Pow2Add(9 * i, 12);
    FrameAligned(i, ppn);
    hide Pow2;
    hide BitOr;
    DivNonneg(va, 4096);
    DivMod(va, 4096);
    MulMod(frame, 4096);
    BitOrDisjoint(frame * 4096, offset, 12);
    OffsetSplit(va, p);
    assert pages < p by { DivMod(Quot(va, 4096), p); }
    OrMiddle(frame, pages, offset, i, p);
  }

  lemma OrMiddle(frame: nat, pages: nat, offset: nat, i: nat, p: nat)
    requires p == Pow2(9 * i) && Rem(frame, p) == 0 && pages < p && offset < 4096
    ensures BitOr(pages * 4096, frame * 4096 + offset) == frame * 4096 + pages * 4096 + offset
  {
    PageSize();
    hide BitOr;
    hide Pow2;
    BitOrDisjoint(frame, pages, 9 * i);
    OrSwaps(frame, pages);
    OrTail(pages, frame, offset, 12);
  }

  /** Low bits of one side stay as they are. */
  lemma {:induction false} OrTail(a: nat, b: nat, t: nat, d: nat)
    requires t < Pow2(d)
    ensures BitOr(a * Pow2(d), b * Pow2(d) + t) == BitOr(a, b) * Pow2(d) + t
    decreases d
  {
    hide BitOr;
    if d > 0 {
      OrTail(a, b, t / 2, d - 1);
      TailStep(a, b, t, Pow2(d - 1), BitOr(a, b));
    } else {
      assert Pow2(0) == 1;
    }
  }

  lemma TailStep(a: nat, b: nat, t: nat, p: nat, or: nat)
    requires BitOr(a * p, b * p + t / 2) == or * p + t / 2
    ensures BitOr(a * (2 * p), b * (2 * p) + t) == or * (2 * p) + t
  {
    hide BitOr;
    OrStep(a * p, b * p + t / 2, t % 2);
    Twice(a, p);
    Twice(b, p);
    Twice(or, p);
  }

  lemma Twice(a: nat, p: nat)
    ensures a * (2 * p) == 2 * (a * p)
  {
  }

  lemma OrStep(a: nat, b: nat, t: nat)
    requires t <= 1
    ensures BitOr(2 * a, 2 * b + t) == 2 * BitOr(a, b) + t
  {
    assert (2 * b + t) / 2 == b;
  }

  lemma OffsetSplit(va: nat, p: nat)
    requires p >= 1
    ensures Rem(va, p * 4096) == Rem(Quot(va, 4096), p) * 4096 + Rem(va, 4096)
  {
    DivMod(va, 4096);
    DivMod(va / 4096, p);
    var y, z, r := va / 4096 / p, va / 4096 % p, va % 4096;
    assert va == y * (p * 4096) + z * 4096 + r by { MulAssoc(y, p, 4096); }
    DivUnique(va, p * 4096, y, z * 4096 + r);
  }

  /** Dropping high bits of an aligned page number leaves it aligned. */
  lemma FrameAligned(i: nat, ppn: Ppn)
    requires 1 <= i <= 3 && Rem(ppn, Pow2(9 * i)) == 0
    ensures Rem(Rem(ppn, Pow2(44 - 9 * i)), Pow2(9 * i)) == 0
  {
    var p, q := Pow2(9 * i), Pow2(44 - 9 * i);
    if i < 3 {
      Pow2Add(9 * i, 44 - 18 * i);
      hide Pow2;
      AlignedRem(ppn, p, Pow2(44 - 18 * i));
    } else {
      Pow2Add(17, 10);
      hide Pow2;
      MultipleRem(ppn, q, Pow2(10));
      DivUnique(0, p, 0, 0);
    }
  }

  lemma AlignedRem(n: nat, p: nat, h: nat)
    requires p >= 1 && h >= 1 && n % p == 0
    ensures n % (p * h) % p == 0
  {
    DivMod(n, p);
    DivMod(n, p * h);
    var k, y := n / p, n / (p * h);
    var z := k - y * h;
    assert n % (p * h) == z * p by {
      MulAssoc(y, h, p);
      Distribute(k, -(y * h), p);
    }
    MulModInt(z, p);
  }

  lemma MulModInt(c: int, p: nat)
    requires p >= 1
    ensures c * p % p == 0
  {
    DivUnique(c * p, p, c, 0);
  }

  lemma MultipleRem(n: nat, q: nat, h: nat)
    requires q >= 1 && h >= 1 && n % (q * h) == 0
    ensures n % q == 0
  {
    DivMod(n, q * h);
    var y := n / (q * h);
    assert n == y * h * q by { MulAssoc(y, h, q); }
    DivUnique(n, q, y * h, 0);
  }

  /** An aligned superpage is where its entry says if and only if its page number has none of
      the bits that get lost. */
  lemma SuperpageIff(level: nat, ppn: Ppn, va: nat)
    requires 1 <= level <= 3
    ensures SuperAddress(level, ppn, va) == ppn * 4096 + Rem(va, Pow2(12 + 9 * level)) <==> ppn < Pow2(44 - 9 * level)
  {
    hide Pow2;
    var q := Pow2(44 - 9 * level);
    DivMod(ppn, q);
    if ppn < q {
      DivUnique(ppn, q, 0, ppn);
    }
  }

  /** A 512 GiB page at 512 GiB is read at address 0. */
  lemma SuperpageExample()
    ensures Rem(0x800_0000, Pow2(27)) == 0 && SuperAddress(3, 0x800_0000, 0) == 0
  {
    PageSize();
    Pow2Add(9, 9);
    Pow2Add(18, 9);
    assert Pow2(17) * 2 == Pow2(18);
    hide Pow2;
    DivUnique(0x800_0000, Pow2(17), 0x400, 0);
    DivUnique(0, Pow2(39), 0, 0);
  }
}
