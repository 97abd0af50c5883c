/** 64-bit register arithmetic in terms of the numbers the registers hold. */
module Numbers {
  import opened Bits
  import opened Words
  import opened Rvc

  function Inc(v: bv64): bv64 { v + 1 }
  function Dec(v: bv64): bv64 { v - 1 }
  function Not(v: bv64): bv64 { !v }
  function Low63(v: bv64): bv64 { v & 0x7FFF_FFFF_FFFF_FFFF }

  // ---------- masks ----------

  function And(v: bv64, m: bv64): bv64 { v & m }

  /** The low `k` bits of a mask are set. */
  predicate LowSet(m: bv64, k: nat) {
    k == 0 || (Odd(m) && LowSet(Half(m), k - 1))
  }

  lemma AndParts(v: bv64, m: bv64)
    ensures Half(And(v, m)) == And(Half(v), Half(m)) && (Odd(And(v, m)) <==> Odd(v) && Odd(m))
  {
  }

  lemma {:induction false} AndKeepsLow(v: bv64, m: bv64, k: nat)
    requires LowSet(m, k)
    ensures NumLow(And(v, m), k) == NumLow(v, k)
    decreases k
  {
    hide Half;
    hide Odd;
    hide And;
    if k > 0 {
      AndParts(v, m);
      AndKeepsLow(Half(v), Half(m), k - 1);
    }
  }

  lemma Set4(m: bv64, k: nat)
    requires m & 15 == 15 && LowSet(Shr4(m), k)
    ensures LowSet(m, k + 4)
  {
    FourOdd(m);
    Shift4(m);
    hide Half;
    hide Odd;
    hide Shr4;
    assert LowSet(Half(Half(Half(m))), k + 1);
    assert LowSet(Half(Half(m)), k + 2);
    assert LowSet(Half(m), k + 3);
  }

  lemma FourOdd(m: bv64)
    requires m & 15 == 15
    ensures Odd(m) && Odd(Half(m)) && Odd(Half(Half(m))) && Odd(Half(Half(Half(m))))
  {
  }

  lemma Low63Set()
    ensures LowSet(0x7FFF_FFFF_FFFF_FFFF, 63)
  {
    hide LowSet;
    assert LowSet(7, 3) by { ThreeSet(); }
    Set4(0x7F, 3);
    Set4(0x7FF, 7);
    Set4(0x7FFF, 11);
    Set4(0x7_FFFF, 15);
    Set4(0x7F_FFFF, 19);
    Set4(0x7FF_FFFF, 23);
    Set4(0x7FFF_FFFF, 27);
    Set4(0x7_FFFF_FFFF, 31);
    Set4(0x7F_FFFF_FFFF, 35);
    Set4(0x7FF_FFFF_FFFF, 39);
    Set4(0x7FFF_FFFF_FFFF, 43);
    Set4(0x7_FFFF_FFFF_FFFF, 47);
    Set4(0x7F_FFFF_FFFF_FFFF, 51);
    Set4(0x7FF_FFFF_FFFF_FFFF, 55);
    Set4(0x7FFF_FFFF_FFFF_FFFF, 59);
  }

  lemma ThreeSet()
    ensures LowSet(7, 3)
  {
    assert LowSet(0, 0);
    assert Half(7) == 3 && Half(3) == 1 && Half(1) == 0;
    assert LowSet(1, 1);
    assert LowSet(3, 2);
  }

  lemma {:induction false} SetFewer(m: bv64, k: nat, j: nat)
    requires LowSet(m, k) && j <= k
    ensures LowSet(m, j)
    decreases j
  {
    hide Half;
    hide Odd;
    if j > 0 {
      SetFewer(Half(m), k - 1, j - 1);
    }
  }

  lemma Low63Num(v: bv64, k: nat)
    requires k <= 63
    ensures NumLow(Low63(v), k) == NumLow(v, k)
  {
    Low63Set();
    SetFewer(0x7FFF_FFFF_FFFF_FFFF, 63, k);
    AndKeepsLow(v, 0x7FFF_FFFF_FFFF_FFFF, k);
    hide NumLow;
    hide LowSet;
  }

  // ---------- adding one ----------

  lemma IncParts(v: bv64)
    ensures Odd(Inc(v)) == !Odd(v)
    ensures Half(Inc(v)) == if Odd(v) then Low63(Inc(Half(v))) else Half(v)
  {
    if Odd(v) {
      OddInc(v, v >> 1);
    }
  }

  lemma OddInc(v: bv64, s: bv64)
    requires v & 1 == 1 && s == v >> 1
    ensures (v + 1) >> 1 == (s + 1) & 0x7FFF_FFFF_FFFF_FFFF
  {
    assert v == s + s + 1;
    assert v + 1 == (s + 1) + (s + 1);
    EvenDouble(s + 1);
  }

  lemma EvenDouble(s: bv64)
    ensures (s + s) >> 1 == s & 0x7FFF_FFFF_FFFF_FFFF
  {
  }

  lemma {:induction false} IncLow(v: bv64, k: nat)
    requires k <= 64
    ensures NumLow(Inc(v), k) == (NumLow(v, k) + 1) % Pow2(k)
    decreases k
  {
    hide Half;
    hide Odd;
    hide Inc;
    hide Low63;
    if k > 0 {
      IncParts(v);
      IncLow(Half(v), k - 1);
      Low63Num(Inc(Half(v)), k - 1);
      IncMod(NumLow(Half(v), k - 1), Odd(v), Pow2(k - 1));
    }
  }

  lemma IncMod(h: nat, odd: bool, p: nat)
    requires h < p
    ensures (2 * h + B2N(odd) + 1) % (2 * p) == if odd then 2 * ((h + 1) % p) else 2 * h + 1
  {
    var q := if h + 1 == p then 1 else 0;
    DivUnique(h + 1, p, q, h + 1 - q * p);
    if odd {
      DivUnique(2 * h + 2, 2 * p, q, 2 * (h + 1 - q * p));
    } else {
      DivUnique(2 * h + 1, 2 * p, 0, 2 * h + 1);
    }
  }

  lemma IncNum(v: bv64)
    ensures Num(Inc(v)) == if Num(v) == WORD - 1 then 0 else Num(v) + 1
  {
    WordSize();
    IncLow(v, 64);
    hide NumLow;
    hide Inc;
    hide Pow2;
  }

  // ---------- sums and differences ----------

  lemma IncDec(v: bv64)
    ensures Inc(Dec(v)) == v
  {
  }

  lemma PlusLast(a: bv64, b: bv64)
    ensures Plus(a, b) == Inc(Plus(a, Dec(b)))
  {
    var d := Dec(b);
    assert d + 1 == b;
    PlusNext(a, d, b);
  }

  lemma PlusNext(a: bv64, d: bv64, b: bv64)
    requires d + 1 == b
    ensures Plus(a, b) == Inc(Plus(a, d))
  {
  }

  lemma PlusNothing(a: bv64)
    ensures Plus(a, 0) == a
  {
  }

  /** Sums wrap at the word size. */
  lemma {:induction false} PlusNum(a: bv64, b: bv64)
    ensures Num(Plus(a, b)) == (Num(a) + Num(b)) % WORD
    decreases Num(b)
  {
    hide Num;
    hide Plus;
    hide Inc;
    hide Dec;
    ZeroNum(b);
    if b == 0 {
      PlusNothing(a);
      ModSmall(Num(a), WORD);
    } else {
      PlusLast(a, b);
      IncDec(b);
      IncNum(Dec(b));
      PlusNum(a, Dec(b));
      IncNum(Plus(a, Dec(b)));
    }
  }

  lemma MinusNum(a: bv64, b: bv64)
    ensures Num(Minus(a, b)) == (Num(a) - Num(b)) % WORD
  {
    hide *;
    MinusPlus(a, b);
    PlusNum(Minus(a, b), b);
    DifferenceMod(Num(Minus(a, b)), Num(b), Num(a));
  }

  lemma MinusPlus(a: bv64, b: bv64)
    ensures Plus(Minus(a, b), b) == a
  {
    assert Plus(a - b, b) == a;
  }

  lemma DifferenceMod(d: nat, b: nat, a: nat)
    requires d < WORD && b < WORD && a == (d + b) % WORD
    ensures d == (a - b) % WORD
  {
  }

  lemma NotNum(v: bv64)
    ensures Num(Not(v)) == WORD - 1 - Num(v)
  {
    assert Inc(Plus(v, Not(v))) == 0;
    hide Num;
    hide Plus;
    hide Inc;
    hide Not;
    ZeroNum(0);
    IncNum(Plus(v, Not(v)));
    PlusNum(v, Not(v));
  }

  // ---------- order ----------

  predicate Below(a: bv64, b: bv64) { a < b }

  lemma HalfBelow(a: bv64, b: bv64)
    requires Below(Half(a), Half(b))
    ensures Below(a, b)
  {
  }

  lemma OneWay(a: bv64, b: bv64)
    requires Below(a, b)
    ensures !Below(b, a) && a != b
  {
  }

  lemma LowBitDecides(a: bv64, b: bv64)
    requires Half(a) == Half(b) && Below(a, b)
    ensures !Odd(a) && Odd(b)
  {
  }

  lemma LowBitBelow(a: bv64, b: bv64)
    requires Half(a) == Half(b) && !Odd(a) && Odd(b)
    ensures Below(a, b)
  {
  }

  lemma {:induction false} BelowLow(a: bv64, b: bv64, k: nat)
    requires Fits(a, k) && Fits(b, k)
    ensures Below(a, b) <==> NumLow(a, k) < NumLow(b, k)
    decreases k
  {
    hide Below;
    hide Half;
    hide Odd;
    hide RegLow;
    if k == 0 {
      NotBelow(a);
    } else {
      BelowLow(Half(a), Half(b), k - 1);
      BelowLow(Half(b), Half(a), k - 1);
      RegOfNumLow(Half(a), k - 1);
      RegOfNumLow(Half(b), k - 1);
      BelowHalf(a, b);
    }
  }

  lemma BelowHalf(a: bv64, b: bv64)
    requires Below(Half(a), Half(b)) || Below(Half(b), Half(a)) || Half(a) == Half(b)
    ensures Below(a, b) <==> Below(Half(a), Half(b)) || (Half(a) == Half(b) && !Odd(a) && Odd(b))
  {
    hide *;
    if Below(Half(a), Half(b)) {
      HalfBelow(a, b);
    } else if Below(Half(b), Half(a)) {
      HalfBelow(b, a);
      OneWay(b, a);
      OneWay(Half(b), Half(a));
    } else if Below(a, b) {
      LowBitDecides(a, b);
    } else if !Odd(a) && Odd(b) {
      LowBitBelow(a, b);
    }
  }

  lemma NotBelow(a: bv64)
    ensures !Below(a, a)
  {
  }

  lemma BelowNum(a: bv64, b: bv64)
    ensures Below(a, b) <==> Num(a) < Num(b)
  {
    AllFit(a);
    AllFit(b);
    hide Below;
    BelowLow(a, b, 64);
    hide NumLow;
    hide Fits;
  }

  lemma SameNum(a: bv64, b: bv64)
    requires Num(a) == Num(b)
    ensures a == b
  {
    RegOfNum(a);
    RegOfNum(b);
  }

  // ---------- powers of two ----------

  /** A mask of the low `k` bits. */
  predicate Ones(m: bv64, k: nat) {
    LowSet(m, k) && Fits(m, k)
  }

  lemma {:induction false} OnesLow(m: bv64, k: nat)
    requires Ones(m, k)
    ensures NumLow(m, k) == Pow2(k) - 1
    decreases k
  {
    hide Half;
    hide Odd;
    if k > 0 {
      OnesLow(Half(m), k - 1);
    }
  }

  lemma {:induction false} FitsNum(v: bv64, k: nat, j: nat)
    requires Fits(v, k) && k <= j
    ensures NumLow(v, j) == NumLow(v, k)
    decreases j
  {
    ZeroHalf();
    hide Half;
    hide Odd;
    if j > 0 {
      FitsNum(Half(v), if k == 0 then 0 else k - 1, j - 1);
    }
  }

  lemma OnesNum(m: bv64, k: nat)
    requires Ones(m, k) && k <= 64
    ensures Num(m) == Pow2(k) - 1
  {
    FitsNum(m, k, 64);
    OnesLow(m, k);
    hide NumLow;
    hide Fits;
    hide LowSet;
  }

  /** The next power of two. */
  lemma PowerNum(m: bv64, k: nat)
    requires Ones(m, k) && k < 64
    ensures Num(Inc(m)) == Pow2(k)
  {
    OnesNum(m, k);
    Pow2Mono(k, 63);
    WordSize();
    HalvePow(64);
    IncNum(m);
    hide Pow2;
    hide Num;
    hide Ones;
  }

  lemma Ones4(m: bv64, k: nat)
    requires m & 15 == 15 && Ones(Shr4(m), k)
    ensures Ones(m, k + 4)
  {
    Set4(m, k);
    Fits4(m, k);
    hide LowSet;
    hide Fits;
  }

  lemma Ones3()
    ensures Ones(7, 3) && Ones(1, 1) && Ones(0, 0)
  {
    ThreeSet();
    assert Half(7) == 3 && Half(3) == 1 && Half(1) == 0 && Odd(1);
    assert Fits(0, 0);
    assert Fits(1, 1);
    assert Fits(3, 2);
  }

  const ONES8: bv64 := 0xFF
  const ONES16: bv64 := 0xFFFF
  const ONES32: bv64 := 0xFFFF_FFFF

  lemma Masks()
    ensures Ones(15, 4) && Ones(31, 5) && Ones(63, 6) && Ones(0x7F, 7) && Ones(ONES8, 8) && Ones(0x7FFF, 15)
    ensures Ones(ONES16, 16) && Ones(0x7FFF_FFFF, 31) && Ones(ONES32, 32) && Ones(0x7FFF_FFFF_FFFF_FFFF, 63)
  {
    hide Ones;
    Ones3();
    OnesTwo();
    Ones4(15, 0);
    Ones4(31, 1);
    Ones4(63, 2);
    Ones4(0x7F, 3);
    Ones4(ONES8, 4);
    Ones4(0x7FF, 7);
    Ones4(0xFFF, 8);
    Ones4(0x7FFF, 11);
    Ones4(ONES16, 12);
    Ones4(0x7_FFFF, 15);
    Ones4(0xF_FFFF, 16);
    Ones4(0x7F_FFFF, 19);
    Ones4(0xFF_FFFF, 20);
    Ones4(0x7FF_FFFF, 23);
    Ones4(0xFFF_FFFF, 24);
    Ones4(0x7FFF_FFFF, 27);
    Ones4(ONES32, 28);
    Ones63();
  }

  lemma OnesTwo()
    ensures Ones(3, 2)
  {
    assert Half(3) == 1 && Half(1) == 0 && Odd(3) && Odd(1);
    assert Fits(0, 0) && LowSet(0, 0);
    assert Fits(1, 1) && LowSet(1, 1);
  }

  lemma Ones63()
    ensures Ones(0x7FFF_FFFF_FFFF_FFFF, 63)
  {
    Low63Set();
    hide LowSet;
    Fits60(0x7FFF_FFFF_FFFF_FFFF, 3);
    Ones3();
    hide Fits;
  }

  // ---------- signed numbers ----------

  const TOP: bv64 := 0x8000_0000_0000_0000

  lemma TopNum()
    ensures Num(TOP) == WORD / 2
  {
    assert Inc(0x7FFF_FFFF_FFFF_FFFF) == TOP;
    Masks();
    PowerNum(0x7FFF_FFFF_FFFF_FFFF, 63);
    WordSize();
    HalvePow(64);
    hide Num;
    hide Ones;
    hide Pow2;
  }

  lemma NegativeNum(v: bv64)
    ensures v & TOP != 0 <==> Num(v) >= WORD / 2
  {
    TopBit(v);
    BelowNum(v, TOP);
    TopNum();
    hide Num;
    hide Below;
  }

  lemma TopBit(v: bv64)
    ensures v & TOP != 0 <==> !Below(v, TOP)
  {
  }

  function Flip(v: bv64): bv64 { v ^ 0x8000_0000_0000_0000 }

  lemma FlipNum(v: bv64)
    ensures Num(Flip(v)) == Signed(Num(v), WORD / 2) + WORD / 2
  {
    FlipIs(v);
    TopNum();
    hide Num;
    hide Flip;
    hide Plus;
    PlusNum(v, TOP);
    FlipMod(Num(v));
  }

  lemma FlipIs(v: bv64)
    ensures Flip(v) == Plus(v, TOP)
  {
  }

  lemma FlipMod(n: nat)
    requires n < WORD
    ensures (n + WORD / 2) % WORD == Signed(n, WORD / 2) + WORD / 2
  {
  }

  /** Signed comparison. */
  lemma LessSigned(a: bv64, b: bv64)
    ensures Less(a, b) <==> Signed(Num(a), WORD / 2) < Signed(Num(b), WORD / 2)
  {
    hide *;
    LessIs(a, b);
    BelowNum(Flip(a), Flip(b));
    FlipNum(a);
    FlipNum(b);
  }

  lemma LessIs(a: bv64, b: bv64)
    ensures Less(a, b) <==> Below(Flip(a), Flip(b))
  {
    hide Less;
    hide Below;
    LessFlipped(a, b);
  }

  lemma LessFlipped(a: bv64, b: bv64)
    ensures Less(a, b) <==> Below(a ^ 0x8000_0000_0000_0000, b ^ 0x8000_0000_0000_0000)
  {
  }
}
