/** Registers whose bits are used one by one, as sets of bit numbers. */
module BitSets {
  import opened Bits

  /** Bit `i` of a number. */
  predicate BitOf(v: nat, i: nat) {
    Quot(v, Pow2(i)) % 2 == 1
  }

  /** The bits of a register of width `w`. */
  function Set(v: nat, w: nat): (s: set<nat>)
    ensures forall i: nat :: i in s <==> i < w && BitOf(v, i)
  {
    set i: nat | i < w && BitOf(v, i)
  }

  /** The number with these bits below `w`. */
  function Number(s: set<nat>, w: nat): (v: nat)
    ensures v < Pow2(w)
  {
    if w == 0 then 0 else Number(s, w - 1) + (if w - 1 in s then Pow2(w - 1) else 0)
  }

  /** The two-bit field at `lo`. */
  function Field(s: set<nat>, lo: nat): (f: nat)
    ensures f <= 3
  {
    (if lo in s then 1 else 0) + (if lo + 1 in s then 2 else 0)
  }

  /** A two-bit number shifted to `lo`. */
  function Put(f: nat, lo: nat): (s: set<nat>)
    requires f <= 3
    ensures forall i: nat :: i in s <==> (i == lo && f % 2 == 1) || (i == lo + 1 && f >= 2)
    ensures Field(s, lo) == f
  {
    (if f % 2 == 1 then {lo} else {}) + (if f >= 2 then {lo + 1} else {})
  }

  ghost predicate Lowest(s: set<nat>, i: nat) {
    i in s && forall j :: j in s ==> i <= j
  }

  /** ctz32: the number of the lowest bit, 32 if there is none. */
  method Ctz32(a: set<nat>) returns (i: nat)
    requires forall j :: j in a ==> j < 32
    ensures if a == {} then i == 32 else Lowest(a, i)
  {
    if a == {} {
      return 32;
    }
    i := 0;
    while i < 32
      invariant i <= 32
      invariant forall j: nat :: j < i ==> j !in a
    {
      if i in a {
        return;
      }
      i := i + 1;
    }
  }

  // ---------- numbers and sets ----------

  lemma {:induction false} SetOfNumber(s: set<nat>, w: nat)
    ensures forall i: nat :: i in Set(Number(s, w), w) <==> i in s && i < w
  {
    forall i: nat | i < w
      ensures BitOf(Number(s, w), i) <==> i in s
    {
      BitOfNumber(s, w, i);
    }
  }

  lemma {:induction false} BitOfNumber(s: set<nat>, w: nat, i: nat)
    requires i < w
    ensures BitOf(Number(s, w), i) <==> i in s
  {
    var v := Number(s, w - 1);
    if i == w - 1 {
      if i in s {
        DivUnique(v + Pow2(i), Pow2(i), 1, v);
      } else {
        DivUnique(v, Pow2(i), 0, v);
      }
    } else {
      BitOfNumber(s, w - 1, i);
      if w - 1 in s {
        HighBitApart(v, i, w - 1);
      }
    }
  }

  /** Adding a higher power of two does not change bit `i`. */
  lemma HighBitApart(v: nat, i: nat, k: nat)
    requires i < k
    ensures BitOf(v + Pow2(k), i) == BitOf(v, i)
  {
    hide Pow2;
    var p, h := Pow2(i), Pow2(k - i - 1);
    Pow2Add(i, k - i);
    HalvePow(k - i);
    assert Pow2(k) == (2 * h) * p by { MulComm(p, 2 * h); }
    DivMod(v, p);
    Distribute(v / p, 2 * h, p);
    DivUnique(v + Pow2(k), p, v / p + 2 * h, v % p);
    assert (v / p + 2 * h) % 2 == (v / p) % 2;
  }

  lemma MulComm(a: int, b: int)
    ensures a * b == b * a
  {
  }
}
