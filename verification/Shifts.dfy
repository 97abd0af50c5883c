/** Shifts, masks, sign extensions and bitwise operations in terms of numbers. */
module Shifts {
  import opened Bits
  import B = BitSets
  import opened Words
  import opened Rvc
  import opened Numbers

  // ---------- low bits ----------

  lemma {:induction false} LowMod(v: bv64, k: nat, j: nat)
    requires k <= j
    ensures NumLow(v, k) == NumLow(v, j) % Pow2(k)
    decreases k
  {
    hide Half;
    hide Odd;
    if k > 0 {
      LowMod(Half(v), k - 1, j - 1);
      DoubleMod(NumLow(Half(v), j - 1), B2N(Odd(v)), Pow2(k - 1));
    }
  }

  lemma DoubleMod(h: nat, o: nat, p: nat)
    requires p >= 1 && o <= 1
    ensures (2 * h + o) % (2 * p) == 2 * (h % p) + o
  {
    DivMod(h, p);
    DivUnique(2 * h + o, 2 * p, h / p, 2 * (h % p) + o);
  }

  lemma LowNum(v: bv64, k: nat)
    requires k <= 64
    ensures NumLow(v, k) == Num(v) % Pow2(k)
  {
    LowMod(v, k, 64);
  }

  lemma {:induction false} AndFits(v: bv64, m: bv64, k: nat)
    requires Fits(m, k)
    ensures Fits(And(v, m), k)
    decreases k
  {
    if k == 0 {
      AndZero(v);
    } else {
      AndParts(v, m);
      hide Half;
      hide Odd;
      hide And;
      AndFits(Half(v), Half(m), k - 1);
    }
  }

  lemma AndZero(v: bv64)
    ensures And(v, 0) == 0
  {
  }

  /** Masking leaves the low bits. */
  lemma MaskNum(v: bv64, m: bv64, k: nat)
    requires Ones(m, k) && k <= 64
    ensures Num(And(v, m)) == NumLow(v, k) == Num(v) % Pow2(k)
  {
    AndFits(v, m, k);
    FitsNum(And(v, m), k, 64);
    AndKeepsLow(v, m, k);
    LowNum(v, k);
    hide NumLow;
    hide Fits;
    hide LowSet;
    hide And;
    hide Pow2;
  }

  // ---------- sign extension ----------

  /** The `k` low bits of a number, read as signed and written as a register. */
  function Extend(n: int, k: nat): (r: nat)
    requires 1 <= k <= 64
  {
    Signed(n % Pow2(k), Pow2(k - 1)) % WORD
  }

  lemma ExtendMod(n: nat, h: nat)
    requires n < 2 * h && 2 * h <= WORD
    ensures Signed(n, h) % WORD == if n < h then n else n + (WORD - 2 * h)
  {
  }

  /** Masking, and ORing ones above when the sign bit `h` is set: `v & h ? v | !m : v & m`. */
  lemma SignBitNum(v: bv64, m: bv64, h: bv64, k: nat, negative: bool)
    requires 1 <= k < 64 && Ones(m, k) && Num(h) == Pow2(k - 1)
    requires negative <==> !Below(And(v, m), h)
    ensures Num(if negative then Plus(And(v, m), Not(m)) else And(v, m)) == Extend(Num(v), k)
  {
    hide *;
    MaskNum(v, m, k);
    BelowNum(And(v, m), h);
    OnesNum(m, k);
    NotNum(m);
    PlusNum(And(v, m), Not(m));
    SignArithmetic(Num(v), k, Num(And(v, m)), Num(Not(m)));
  }

  lemma SignArithmetic(n: nat, k: nat, low: nat, ones: nat)
    requires 1 <= k < 64 && low == n % Pow2(k) && ones == WORD - 1 - (Pow2(k) - 1)
    ensures Extend(n, k) == if low < Pow2(k - 1) then low else (low + ones) % WORD
  {
    HalvePow(k);
    Pow2Mono(k, 63);
    WordSize();
    HalvePow(64);
    hide Pow2;
    ExtendMod(low, Pow2(k - 1));
  }

  // the sign bits and masks of the code

  lemma WordSign(v: bv64)
    ensures v & 0x8000_0000 != 0 <==> !Below(And(v, ONES32), 0x8000_0000)
    ensures Word(v) == if v & 0x8000_0000 != 0 then Plus(And(v, ONES32), Not(ONES32)) else And(v, ONES32)
  {
  }

  /** The sign-extended low half of a register. */
  lemma WordNum(v: bv64)
    ensures Num(Word(v)) == Extend(Num(v), 32)
  {
    hide *;
    Masks();
    WordSign(v);
    Powers();
    SignBitNum(v, ONES32, 0x8000_0000, 32, v & 0x8000_0000 != 0);
  }

  lemma PowerIs(m: bv64, k: nat, h: bv64)
    requires Ones(m, k) && k < 64 && h == Inc(m)
    ensures Num(h) == Pow2(k)
  {
    PowerNum(m, k);
  }

  lemma Powers()
    ensures Num(0x80) == Pow2(7) && Num(0x8000) == Pow2(15) && Num(0x8000_0000) == Pow2(31)
  {
    hide Ones;
    hide Num;
    hide Pow2;
    Masks();
    PowerIs(0x7F, 7, 0x80);
    PowerIs(0x7FFF, 15, 0x8000);
    PowerIs(0x7FFF_FFFF, 31, 0x8000_0000);
  }

  /** Masks and sign bits of the immediates. */
  lemma ImmediateMasks()
    ensures Ones(0xFFF, 12) && Ones(0x1FFF, 13) && Ones(0x1F_FFFF, 21)
    ensures Num(0x800) == Pow2(11) && Num(0x1000) == Pow2(12) && Num(0x10_0000) == Pow2(20)
  {
    hide Ones;
    hide Num;
    hide Pow2;
    Masks();
    Ones4(0x7FF, 7);
    Ones4(0xFFF, 8);
    Ones4(0x1FF, 5);
    Ones4(0x1FFF, 9);
    Ones4(0xF_FFFF, 16);
    Ones4(0x1_FFFF, 13);
    Ones4(0x1F_FFFF, 17);
    PowerIs(0x7FF, 11, 0x800);
    PowerIs(0xFFF, 12, 0x1000);
    PowerIs(0xF_FFFF, 20, 0x10_0000);
  }

  // ---------- shifts ----------

  lemma SllStep(v: bv64, n: bv64)
    requires n < 63
    ensures v << (n + 1) == (v << n) + (v << n)
  {
  }

  lemma SllNext(v: bv64, n: bv64)
    requires n < 63
    ensures n + 1 < 64 && Sll64(v, n + 1) == v << (n + 1)
  {
  }

  lemma DoubleShift(v: bv64, n: bv64)
    requires n < 64
    ensures Plus(v << n, v << n) == (v << n) + (v << n)
  {
  }

  lemma SrlStep(v: bv64, n: bv64)
    requires n < 63
    ensures v >> (n + 1) == (v >> n) >> 1
  {
  }

  lemma SrlNext(v: bv64, n: bv64)
    requires n < 63
    ensures n + 1 < 64 && Srl64(v, n + 1) == v >> (n + 1)
  {
  }

  lemma HalfShift(v: bv64, n: bv64)
    requires n < 64
    ensures Half(v >> n) == (v >> n) >> 1
  {
  }

  lemma SllIs(v: bv64, n: bv64)
    requires n < 64
    ensures Sll64(v, n) == v << n
  {
  }

  lemma SrlIs(v: bv64, n: bv64)
    requires n < 64
    ensures Srl64(v, n) == v >> n
  {
  }

  /** One place more. */
  lemma LeftStep(v: bv64, n: bv64, m: bv64)
    requires m == Inc(n) && n < 63 && m < 64
    ensures Sll64(v, m) == Plus(Sll64(v, n), Sll64(v, n))
  {
    hide *;
    IncIs(n);
    SllStep(v, n);
    SllNext(v, n);
    DoubleShift(v, n);
    SllIs(v, n);
  }

  lemma RightStep(v: bv64, n: bv64, m: bv64)
    requires m == Inc(n) && n < 63 && m < 64
    ensures Srl64(v, m) == Half(Srl64(v, n))
  {
    hide *;
    IncIs(n);
    SrlStep(v, n);
    SrlNext(v, n);
    HalfShift(v, n);
    SrlIs(v, n);
  }

  lemma IncIs(n: bv64)
    ensures Inc(n) == n + 1
  {
  }

  lemma ShiftNone(v: bv64)
    ensures Sll64(v, 0) == v && Srl64(v, 0) == v
  {
  }

  lemma {:induction false} SllNum(v: bv64, n: bv64)
    requires n < 64
    ensures Num(Sll64(v, n)) == Num(v) * Pow2(Num(n)) % WORD
    decreases Num(n)
  {
    hide Num;
    hide Sll64;
    hide Srl64;
    hide Plus;
    hide Pow2;
    OnePow();
    ZeroNum(n);
    if n == 0 {
      ShiftNone(v);
      ModSmall(Num(v), WORD);
    } else {
      var m := Dec(n);
      Previous(n, m);
      SllNum(v, m);
      LeftStep(v, m, n);
      PlusNum(Sll64(v, m), Sll64(v, m));
      HalvePow(Num(n));
      TwiceMod(Num(v) * Pow2(Num(m)));
      TwiceTimes(Num(v), Pow2(Num(m)));
    }
  }

  lemma Previous(n: bv64, m: bv64)
    requires n < 64 && n != 0 && m == Dec(n)
    ensures n == Inc(m) && m < 63 && m < 64 && Num(n) == Num(m) + 1
  {
    IncDec(n);
    IncNum(m);
    ZeroNum(n);
    hide Num;
  }

  lemma TwiceMod(x: nat)
    ensures (x % WORD + x % WORD) % WORD == 2 * x % WORD
  {
    DivMod(x, WORD);
    var q, r := x / WORD, x % WORD;
    DivMod(2 * r, WORD);
    DivUnique(2 * x, WORD, 2 * q + 2 * r / WORD, 2 * r % WORD);
  }

  lemma TwiceTimes(a: nat, p: nat)
    ensures a * (2 * p) == 2 * (a * p)
  {
  }

  lemma HalfNum(v: bv64)
    ensures Num(Half(v)) == Num(v) / 2
  {
    AllFit(v);
    ZeroHalf();
    assert Fits(Half(v), 63);
    FitsNum(Half(v), 63, 64);
    hide Half;
    hide Fits;
    assert NumLow(v, 64) == 2 * NumLow(Half(v), 63) + B2N(Odd(v));
    hide NumLow;
  }

  lemma {:induction false} SrlNum(v: bv64, n: bv64)
    requires n < 64
    ensures Num(Srl64(v, n)) == Num(v) / Pow2(Num(n))
    decreases Num(n)
  {
    hide Num;
    hide Sll64;
    hide Srl64;
    hide Half;
    hide Pow2;
    OnePow();
    ZeroNum(n);
    if n == 0 {
      ShiftNone(v);
    } else {
      var m := Dec(n);
      Previous(n, m);
      SrlNum(v, m);
      RightStep(v, m, n);
      HalfNum(Srl64(v, m));
      HalvePow(Num(n));
      QuotTwice(Num(v), Pow2(Num(m)));
    }
  }

  lemma QuotTwice(a: int, p: nat)
    requires p >= 1
    ensures a / p / 2 == a / (2 * p)
  {
    DivMod(a, p);
    var q := a / p;
    DivMod(q, 2);
    var h := q / 2;
    Distribute(2 * h, q % 2, p);
    TwiceOut(h, p);
    DivUnique(a, 2 * p, h, q % 2 * p + a % p);
  }

  lemma TwiceOut(h: int, p: nat)
    ensures 2 * h * p == h * (2 * p)
  {
  }

  /** The arithmetic shift: the floor of the signed number divided by the power of two. */
  lemma SraNum(v: bv64, n: bv64)
    requires n < 64
    ensures Num(Sra64(v, n)) == Signed(Num(v), WORD / 2) / Pow2(Num(n)) % WORD
  {
    hide *;
    NegativeNum(v);
    if v & TOP != 0 {
      SraNegative(v, n);
    } else {
      SraPositive(v, n);
    }
  }

  lemma SraNegative(v: bv64, n: bv64)
    requires n < 64 && v & TOP != 0 && Num(v) >= WORD / 2
    ensures Num(Sra64(v, n)) == Signed(Num(v), WORD / 2) / Pow2(Num(n)) % WORD
  {
    hide *;
    SraIsNot(v, n);
    NotNum(v);
    SrlNum(Not(v), n);
    NotNum(Srl64(Not(v), n));
    FloorNegative(Num(v), Pow2(Num(n)), Num(Not(v)), Num(Srl64(Not(v), n)));
    SignedIs(Num(v));
  }

  lemma SignedIs(n: nat)
    requires WORD / 2 <= n < WORD
    ensures Signed(n, WORD / 2) == n - WORD
  {
  }

  lemma SraPositive(v: bv64, n: bv64)
    requires n < 64 && v & TOP == 0 && Num(v) < WORD / 2
    ensures Num(Sra64(v, n)) == Signed(Num(v), WORD / 2) / Pow2(Num(n)) % WORD
  {
    PositiveSra64(v, n);
    hide Num;
    hide Sra64;
    hide Srl64;
    hide Pow2;
    SrlNum(v, n);
    FloorSmall(Num(v), Pow2(Num(n)));
  }

  lemma SraIsNot(v: bv64, n: bv64)
    requires n < 64 && v & TOP != 0
    ensures Sra64(v, n) == Not(Srl64(Not(v), n))
  {
    hide *;
    NegativeSra64(v, n);
    SrlNot(v, n);
    NotIs(v);
  }

  lemma SrlNot(v: bv64, n: bv64)
    requires n < 64
    ensures Srl64(!v, n) == !v >> n
  {
  }

  lemma NotIs(v: bv64)
    ensures Not(v) == !v
  {
  }

  lemma NegativeSra64(w: bv64, m: bv64)
    requires m < 64 && w & TOP != 0
    ensures Sra64(w, m) == Not(!w >> m)
  {
  }

  lemma PositiveSra64(w: bv64, m: bv64)
    requires m < 64 && w & TOP == 0
    ensures Sra64(w, m) == Srl64(w, m)
  {
  }

  lemma FloorNegative(n: nat, p: nat, x: nat, q: nat)
    requires n < WORD && p >= 1 && x == WORD - 1 - n && q == x / p
    ensures WORD - 1 - q == (n - WORD) / p % WORD
  {
    DivMod(x, p);
    DivNonneg(x, p);
    MulOrderLe(q, p);
    Negated(q, p);
    DivUnique(n - WORD, p, -1 - q, p - 1 - x % p);
    DivUnique(-1 - q, WORD, -1, WORD - 1 - q);
  }

  lemma Negated(q: int, p: int)
    ensures (-1 - q) * p == -p - q * p
  {
  }

  lemma MulOrderLe(q: nat, p: nat)
    requires p >= 1
    ensures q <= q * p
  {
  }

  lemma FloorSmall(n: nat, p: nat)
    requires n < WORD && p >= 1
    ensures n / p == n / p % WORD
  {
    DivMod(n, p);
    DivNonneg(n, p);
    MulOrderLe(n / p, p);
    ModSmall(n / p, WORD);
  }

  // ---------- 32-bit shifts ----------

  function Sll32(x: bv32, k: bv32): bv32
    requires k < 32
  {
    x << k
  }

  lemma LowLeft(v: bv64, n: bv64)
    requires n < 32
    ensures Low32(n) < 32 && Low32(v) << Low32(n) == Low32(Sll64(v, n))
  {
  }

  lemma LowRight(v: bv64, n: bv64)
    requires n < 32
    ensures Low32(n) < 32 && Low32(v) >> Low32(n) == Low32(Srl64(And(v, ONES32), n))
  {
  }

  lemma Shifts32(x: bv32, k: bv32)
    requires k < 32
    ensures Sll32(x, k) == x << k && Srl32(x, k) == x >> k
  {
  }

  lemma ShiftWPieces(v: bv64, n: bv64)
    requires Low32(n & 31) < 32
    ensures SllW(v, n) == Sx(Sll32(Low32(v), Low32(n & 31))) && SrlW(v, n) == Sx(Srl32(Low32(v), Low32(n & 31)))
  {
    hide Sx;
    hide Low32;
  }

  lemma WordIsLow(v: bv64)
    ensures Word(v) == Sx(Low32(v))
  {
    hide Sx;
  }

  lemma SllWIs(v: bv64, n: bv64)
    ensures n & 31 < 64 && SllW(v, n) == Word(Sll64(v, n & 31))
  {
    hide *;
    FiveBits(n);
    ShiftWPieces(v, n);
    LowLeft(v, n & 31);
    Shifts32(Low32(v), Low32(n & 31));
    WordIsLow(Sll64(v, n & 31));
  }

  lemma SrlWIs(v: bv64, n: bv64)
    ensures n & 31 < 64 && SrlW(v, n) == Word(Srl64(And(v, ONES32), n & 31))
  {
    hide *;
    FiveBits(n);
    ShiftWPieces(v, n);
    LowRight(v, n & 31);
    Shifts32(Low32(v), Low32(n & 31));
    WordIsLow(Srl64(And(v, ONES32), n & 31));
  }

  lemma SraWIs(v: bv64, n: bv64)
    ensures n & 31 < 64 && SraW(v, n) == Sra64(Word(v), n & 31)
  {
    hide *;
    FiveBits(n);
    SraWPieces(v, n);
    SxSra(Low32(v), Low32(n & 31));
  }

  lemma FiveBits(n: bv64)
    ensures n & 31 < 32 && Low32(n & 31) < 32 && Wide(Low32(n & 31)) == n & 31
  {
  }

  lemma SraWPieces(v: bv64, n: bv64)
    requires Low32(n & 31) < 32
    ensures SraW(v, n) == Sx(Sra(Low32(v), Low32(n & 31))) && Word(v) == Sx(Low32(v))
  {
    hide Sx;
    hide Sra;
  }

  function Wide(x: bv32): bv64 { x as bv64 }
  function WideNegative(x: bv32): bv64 { (x as bv64) | 0xFFFF_FFFF_0000_0000 }
  function Not32(x: bv32): bv32 { !x }

  function Srl32(x: bv32, k: bv32): bv32
    requires k < 32
  {
    x >> k
  }

  lemma SxSra(x: bv32, k: bv32)
    requires k < 32
    ensures Wide(k) < 64 && Sx(Sra(x, k)) == Sra64(Sx(x), Wide(k))
  {
    hide *;
    SmallWide(k);
    if x & 0x8000_0000 != 0 {
      SxSraNegative(x, k);
    } else {
      PositiveSra(x, k);
      PositiveSx(x);
      PositiveSx(Srl32(x, k));
      TopClear(x);
      PositiveSra64(Wide(x), Wide(k));
      WideShift(x, k);
    }
  }

  lemma SxSraNegative(x: bv32, k: bv32)
    requires k < 32 && Wide(k) < 64 && x & 0x8000_0000 != 0
    ensures Sx(Sra(x, k)) == Sra64(Sx(x), Wide(k))
  {
    hide *;
    NegativeSra(x, k);
    NegativeSx(x);
    NegativeSx(Sra(x, k));
    TopSet(x);
    SraIsNot(WideNegative(x), Wide(k));
    NotNegative(x);
    WideShift(Not32(x), k);
    NotWide(Srl32(Not32(x), k));
  }

  lemma SmallWide(k: bv32)
    requires k < 32
    ensures Wide(k) < 64
  {
  }

  lemma NegativeSra(x: bv32, k: bv32)
    requires k < 32 && x & 0x8000_0000 != 0
    ensures Sra(x, k) == Not32(Srl32(Not32(x), k)) && Sra(x, k) & 0x8000_0000 != 0
  {
  }

  lemma PositiveSra(x: bv32, k: bv32)
    requires k < 32 && x & 0x8000_0000 == 0
    ensures Sra(x, k) == Srl32(x, k) && Srl32(x, k) & 0x8000_0000 == 0
  {
  }

  lemma NegativeSx(x: bv32)
    requires x & 0x8000_0000 != 0
    ensures Sx(x) == WideNegative(x)
  {
  }

  lemma PositiveSx(x: bv32)
    requires x & 0x8000_0000 == 0
    ensures Sx(x) == Wide(x)
  {
  }

  lemma TopSet(x: bv32)
    ensures WideNegative(x) & TOP != 0
  {
  }

  lemma TopClear(x: bv32)
    ensures Wide(x) & TOP == 0
  {
  }

  lemma NotNegative(x: bv32)
    ensures Not(WideNegative(x)) == Wide(Not32(x))
  {
    hide Not;
    NotUpper(x);
  }

  lemma NotUpper(x: bv32)
    ensures Not((x as bv64) | 0xFFFF_FFFF_0000_0000) == (!x) as bv64
  {
  }

  lemma NotWide(y: bv32)
    ensures Not(Wide(y)) == WideNegative(Not32(y))
  {
    hide Not;
    NotLower(y);
  }

  lemma NotLower(y: bv32)
    ensures Not(y as bv64) == ((!y) as bv64) | 0xFFFF_FFFF_0000_0000
  {
  }

  lemma WideShift(y: bv32, k: bv32)
    requires k < 32 && Wide(k) < 64
    ensures Srl64(Wide(y), Wide(k)) == Wide(Srl32(y, k))
  {
    hide *;
    LowShift(y, k);
    WideIs(y);
    WideIs(k);
    WideSrl(y, k);
  }

  lemma WideIs(y: bv32)
    ensures Wide(y) == y as bv64
  {
  }

  lemma WideSrl(y: bv32, k: bv32)
    requires k < 32
    ensures Wide(Srl32(y, k)) == (y >> k) as bv64
  {
  }

  lemma LowShift(y: bv32, k: bv32)
    requires k < 32
    ensures k as bv64 < 64 && Srl64(y as bv64, k as bv64) == (y >> k) as bv64
  {
  }

  // ---------- single bits ----------

  predicate Bit(v: bv64, i: nat) {
    if i == 0 then Odd(v) else Bit(Half(v), i - 1)
  }

  lemma {:induction false} BitNum(v: bv64, k: nat, i: nat)
    requires i < k
    ensures B.BitOf(NumLow(v, k), i) <==> Bit(v, i)
    decreases k
  {
    hide Half;
    hide Odd;
    if i == 0 {
      OnePow();
      LowBit(v, k);
    } else {
      BitNum(Half(v), k - 1, i - 1);
      QuotHalf(NumLow(Half(v), k - 1), B2N(Odd(v)), Pow2(i - 1));
    }
  }

  lemma QuotHalf(h: nat, o: nat, p: nat)
    requires p >= 1 && o <= 1
    ensures Quot(2 * h + o, 2 * p) == Quot(h, p)
  {
    DivMod(h, p);
    DivUnique(2 * h + o, 2 * p, h / p, 2 * (h % p) + o);
  }

  function Xor(a: bv64, b: bv64): bv64 { a ^ b }

  lemma XorParts(a: bv64, b: bv64)
    ensures Half(Xor(a, b)) == Xor(Half(a), Half(b)) && (Odd(Xor(a, b)) <==> Odd(a) != Odd(b))
  {
  }

  lemma {:induction false} BitParts(a: bv64, b: bv64, i: nat)
    ensures Bit(And(a, b), i) <==> Bit(a, i) && Bit(b, i)
    ensures Bit(Or(a, b), i) <==> Bit(a, i) || Bit(b, i)
    ensures Bit(Xor(a, b), i) <==> Bit(a, i) != Bit(b, i)
    decreases i
  {
    hide Half;
    hide Odd;
    hide And;
    hide Or;
    hide Xor;
    AndParts(a, b);
    OrParts(a, b);
    XorParts(a, b);
    if i > 0 {
      BitParts(Half(a), Half(b), i - 1);
    }
  }

  /** The logical operations, bit by bit. */
  lemma LogicBits(a: bv64, b: bv64, i: nat)
    requires i < 64
    ensures B.BitOf(Num(And(a, b)), i) <==> B.BitOf(Num(a), i) && B.BitOf(Num(b), i)
    ensures B.BitOf(Num(Or(a, b)), i) <==> B.BitOf(Num(a), i) || B.BitOf(Num(b), i)
    ensures B.BitOf(Num(Xor(a, b)), i) <==> B.BitOf(Num(a), i) != B.BitOf(Num(b), i)
  {
    hide *;
    BitParts(a, b, i);
    NumberBit(a, i);
    NumberBit(b, i);
    NumberBit(And(a, b), i);
    NumberBit(Or(a, b), i);
    NumberBit(Xor(a, b), i);
  }

  lemma AndIs(a: bv64, b: bv64)
    ensures And64(a, b) == And(a, b)
  {
  }

  lemma NumberBit(v: bv64, i: nat)
    requires i < 64
    ensures B.BitOf(Num(v), i) <==> Bit(v, i)
  {
    BitNum(v, 64, i);
  }

  // ---------- immediates ----------

  /** The number a 32-bit field holds. */
  function Field(v: bv32): (n: nat) {
    Num(v as bv64)
  }

  // sign-extended immediates of 12, 13 and 21 bits

  lemma Imm12Num(v: bv32)
    ensures Num(Sx(Ext(v, 12))) == Extend(Field(v), 12)
  {
    hide *;
    ImmediateMasks();
    Sign12(v);
    Sign12Wide(v as bv64);
    if v & 0x800 != 0 {
      Negative12(v);
    } else {
      Positive12(v);
    }
    SignBitNum(v as bv64, 0xFFF, 0x800, 12, (v as bv64) & 0x800 != 0);
    FieldIs(v);
  }

  lemma Sign12(v: bv32)
    ensures (v as bv64) & 0x800 != 0 <==> v & 0x800 != 0
  {
  }

  lemma Sign12Wide(w: bv64)
    ensures w & 0x800 != 0 <==> !Below(And(w, 0xFFF), 0x800)
  {
  }

  lemma Negative12(v: bv32)
    requires v & 0x800 != 0
    ensures Sx(Ext(v, 12)) == Plus(And(v as bv64, 0xFFF), Not(0xFFF))
  {
    hide *;
    Ext12(v);
    Sra12Negative(v);
    Sx12Negative(v);
  }

  lemma Positive12(v: bv32)
    requires v & 0x800 == 0
    ensures Sx(Ext(v, 12)) == And(v as bv64, 0xFFF)
  {
    hide *;
    Ext12(v);
    Sra12Positive(v);
    Sx12Positive(v);
  }

  lemma Ext12(v: bv32)
    ensures Ext(v, 12) == Sra(v << 20, 20)
  {
    hide Sra;
  }

  lemma Sra12Negative(v: bv32)
    requires v & 0x800 != 0
    ensures Sra(v << 20, 20) == v | 0xFFFF_F000
  {
  }

  lemma Sra12Positive(v: bv32)
    requires v & 0x800 == 0
    ensures Sra(v << 20, 20) == v & 0xFFF
  {
  }

  lemma Sx12Negative(v: bv32)
    requires v & 0x800 != 0
    ensures Sx(v | 0xFFFF_F000) == Plus(And(v as bv64, 0xFFF), Not(0xFFF))
  {
    assert Sx(v | 0xFFFF_F000) == ((v as bv64) & 0xFFF) + !0xFFF;
  }

  lemma Sx12Positive(v: bv32)
    requires v & 0x800 == 0
    ensures Sx(v & 0xFFF) == And(v as bv64, 0xFFF)
  {
  }

  lemma Imm13Num(v: bv32)
    ensures Num(Sx(Ext(v, 13))) == Extend(Field(v), 13)
  {
    hide *;
    ImmediateMasks();
    Sign13(v);
    Sign13Wide(v as bv64);
    if v & 0x1000 != 0 {
      Negative13(v);
    } else {
      Positive13(v);
    }
    SignBitNum(v as bv64, 0x1FFF, 0x1000, 13, (v as bv64) & 0x1000 != 0);
    FieldIs(v);
  }

  lemma Sign13(v: bv32)
    ensures (v as bv64) & 0x1000 != 0 <==> v & 0x1000 != 0
  {
  }

  lemma Sign13Wide(w: bv64)
    ensures w & 0x1000 != 0 <==> !Below(And(w, 0x1FFF), 0x1000)
  {
  }

  lemma Negative13(v: bv32)
    requires v & 0x1000 != 0
    ensures Sx(Ext(v, 13)) == Plus(And(v as bv64, 0x1FFF), Not(0x1FFF))
  {
    hide *;
    Ext13(v);
    Sra13Negative(v);
    Sx13Negative(v);
  }

  lemma Positive13(v: bv32)
    requires v & 0x1000 == 0
    ensures Sx(Ext(v, 13)) == And(v as bv64, 0x1FFF)
  {
    hide *;
    Ext13(v);
    Sra13Positive(v);
    Sx13Positive(v);
  }

  lemma Ext13(v: bv32)
    ensures Ext(v, 13) == Sra(v << 19, 19)
  {
    hide Sra;
  }

  lemma Sra13Negative(v: bv32)
    requires v & 0x1000 != 0
    ensures Sra(v << 19, 19) == v | 0xFFFF_E000
  {
  }

  lemma Sra13Positive(v: bv32)
    requires v & 0x1000 == 0
    ensures Sra(v << 19, 19) == v & 0x1FFF
  {
  }

  lemma Sx13Negative(v: bv32)
    requires v & 0x1000 != 0
    ensures Sx(v | 0xFFFF_E000) == Plus(And(v as bv64, 0x1FFF), Not(0x1FFF))
  {
    assert Sx(v | 0xFFFF_E000) == ((v as bv64) & 0x1FFF) + !0x1FFF;
  }

  lemma Sx13Positive(v: bv32)
    requires v & 0x1000 == 0
    ensures Sx(v & 0x1FFF) == And(v as bv64, 0x1FFF)
  {
  }

  lemma Imm21Num(v: bv32)
    ensures Num(Sx(Ext(v, 21))) == Extend(Field(v), 21)
  {
    hide *;
    ImmediateMasks();
    Sign21(v);
    Sign21Wide(v as bv64);
    if v & 0x10_0000 != 0 {
      Negative21(v);
    } else {
      Positive21(v);
    }
    SignBitNum(v as bv64, 0x1F_FFFF, 0x10_0000, 21, (v as bv64) & 0x10_0000 != 0);
    FieldIs(v);
  }

  lemma Sign21(v: bv32)
    ensures (v as bv64) & 0x10_0000 != 0 <==> v & 0x10_0000 != 0
  {
  }

  lemma Sign21Wide(w: bv64)
    ensures w & 0x10_0000 != 0 <==> !Below(And(w, 0x1F_FFFF), 0x10_0000)
  {
  }

  lemma Negative21(v: bv32)
    requires v & 0x10_0000 != 0
    ensures Sx(Ext(v, 21)) == Plus(And(v as bv64, 0x1F_FFFF), Not(0x1F_FFFF))
  {
    hide *;
    Ext21(v);
    Sra21Negative(v);
    Sx21Negative(v);
  }

  lemma Positive21(v: bv32)
    requires v & 0x10_0000 == 0
    ensures Sx(Ext(v, 21)) == And(v as bv64, 0x1F_FFFF)
  {
    hide *;
    Ext21(v);
    Sra21Positive(v);
    Sx21Positive(v);
  }

  lemma Ext21(v: bv32)
    ensures Ext(v, 21) == Sra(v << 11, 11)
  {
    hide Sra;
  }

  lemma Sra21Negative(v: bv32)
    requires v & 0x10_0000 != 0
    ensures Sra(v << 11, 11) == v | 0xFFE0_0000
  {
  }

  lemma Sra21Positive(v: bv32)
    requires v & 0x10_0000 == 0
    ensures Sra(v << 11, 11) == v & 0x1F_FFFF
  {
  }

  lemma Sx21Negative(v: bv32)
    requires v & 0x10_0000 != 0
    ensures Sx(v | 0xFFE0_0000) == Plus(And(v as bv64, 0x1F_FFFF), Not(0x1F_FFFF))
  {
    assert Sx(v | 0xFFE0_0000) == ((v as bv64) & 0x1F_FFFF) + !0x1F_FFFF;
  }

  lemma Sx21Positive(v: bv32)
    requires v & 0x10_0000 == 0
    ensures Sx(v & 0x1F_FFFF) == And(v as bv64, 0x1F_FFFF)
  {
  }

  lemma FieldIs(v: bv32)
    ensures Field(v) == Num(v as bv64)
  {
    hide Num;
  }

  /** The fields of 32 bits: sign extension is that of a word. */
  lemma SxNum(v: bv32)
    ensures Num(Sx(v)) == Extend(Field(v), 32)
  {
    hide *;
    SxIsWord(v);
    WordNum(v as bv64);
    FieldIs(v);
  }

  lemma SxIsWord(v: bv32)
    ensures Word(v as bv64) == Sx(v)
  {
    hide Sx;
  }

  /** Extension only looks at the low bits. */
  lemma ExtendWrapped(n: int, k: nat)
    requires 1 <= k <= 64
    ensures Extend(n % WORD, k) == Extend(n, k)
  {
    WordSize();
    Pow2Add(k, 64 - k);
    hide Pow2;
    NestedMod(n, Pow2(k), Pow2(64 - k));
  }

  lemma NestedMod(n: int, p: nat, q: nat)
    requires p >= 1 && q >= 1
    ensures n % (p * q) % p == n % p
  {
    DivMod(n, p * q);
    var y, r := n / (p * q), n % (p * q);
    DivMod(r, p);
    var z := r / p;
    Distribute(y * q, z, p);
    MulAssoc(y, q, p);
    MulSwap(q, p);
    DivUnique(n, p, y * q + z, r % p);
  }

  lemma MulSwap(p: int, q: int)
    ensures p * q == q * p
  {
  }

  /** Reading an extended number back as signed. */
  lemma ExtendSigned(n: int, k: nat)
    requires 1 <= k <= 64
    ensures Signed(Extend(n, k), WORD / 2) == Signed(n % Pow2(k), Pow2(k - 1))
  {
    WordSize();
    HalvePow(k);
    HalvePow(64);
    Pow2Mono(k - 1, 63);
    hide Pow2;
    var m, h := n % Pow2(k), Pow2(k - 1);
    DivMod(n, Pow2(k));
    ModNegative(Signed(m, h));
  }

  lemma ModNegative(d: int)
    requires 0 - WORD / 2 <= d < WORD / 2
    ensures Signed(d % WORD, WORD / 2) == d
  {
  }

  lemma NumReg(n: nat)
    requires n < WORD
    ensures Num(Reg(n)) == n
  {
    WordSize();
    NumOfRegLow(n, 64, 64);
    hide NumLow;
    hide RegLow;
  }
}
