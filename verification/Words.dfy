/** Register contents as bit vectors and as numbers, and the division instructions
    (instructions.c:84-185). */
module Words {
  import opened Bits

  const WORD: nat := 0x1_0000_0000_0000_0000

  function Half(v: bv64): bv64 { v >> 1 }

  predicate Odd(v: bv64) { v & 1 == 1 }

  function Double(v: bv64, b: bool): bv64 {
    (v << 1) | (if b then 1 else 0)
  }

  /** The number made of the low `k` bits of a register. */
  function NumLow(v: bv64, k: nat): (n: nat)
    ensures n < Pow2(k)
  {
    if k == 0 then 0 else 2 * NumLow(Half(v), k - 1) + B2N(Odd(v))
  }

  function Num(v: bv64): (n: nat)
    ensures n < WORD
  {
    WordSize();
    NumLow(v, 64)
  }

  /** The register holding the low `k` bits of a number. */
  function RegLow(n: nat, k: nat): bv64 {
    if k == 0 then 0 else Double(RegLow(n / 2, k - 1), n % 2 == 1)
  }

  function Reg(n: nat): bv64 {
    RegLow(n, 64)
  }

  lemma WordSize()
    ensures Pow2(64) == WORD
  {
    assert Pow2(4) == 16;
    hide Pow2;
    Pow2Add(4, 4);
    Pow2Add(8, 8);
    Pow2Add(16, 16);
    Pow2Add(32, 32);
  }

  // halving undoes doubling and the other way round

  lemma DoubleOdd(v: bv64, b: bool)
    ensures Odd(Double(v, b)) == b
  {
  }

  lemma DoubleHalf(v: bv64, b: bool)
    requires v < 0x8000_0000_0000_0000
    ensures Half(Double(v, b)) == v
  {
  }

  lemma HalfDouble(v: bv64)
    ensures Double(Half(v), Odd(v)) == v
  {
  }

  lemma EvenNum(v: bv64)
    ensures Num(v) % 2 == 0 <==> v & 1 == 0
  {
    OddBit(v);
    LowBit(v, 64);
    hide NumLow;
    hide Odd;
  }

  lemma LowBit(v: bv64, k: nat)
    requires k > 0
    ensures NumLow(v, k) % 2 == B2N(Odd(v))
  {
    hide Half;
    hide Odd;
  }

  lemma OddBit(v: bv64)
    ensures Odd(v) <==> v & 1 != 0
  {
  }

  lemma EvenReg(n: nat)
    ensures Reg(n) & 1 == 0 <==> n % 2 == 0
  {
    DoubleOdd(RegLow(n / 2, 63), n % 2 == 1);
    OddBit(Reg(n));
    hide Double;
    hide Odd;
  }

  /** Nothing is left of `v` after `k` halvings. */
  predicate Fits(v: bv64, k: nat) {
    if k == 0 then v == 0 else Fits(Half(v), k - 1)
  }

  function Shr4(v: bv64): bv64 { v >> 4 }
  function Shr20(v: bv64): bv64 { v >> 20 }
  function Shr60(v: bv64): bv64 { v >> 60 }

  lemma Shift4(v: bv64)
    ensures Half(Half(Half(Half(v)))) == Shr4(v)
  {
  }

  lemma Shift20(v: bv64)
    ensures Shr4(Shr4(Shr4(Shr4(Shr4(v))))) == Shr20(v)
  {
  }

  lemma Shift60(v: bv64)
    ensures Shr20(Shr20(Shr20(v))) == Shr60(v)
  {
  }

  lemma Shift64(v: bv64)
    ensures Shr4(Shr60(v)) == 0
  {
  }

  lemma Shift63(v: bv64)
    requires Half(Half(Half(Shr60(v)))) == 0
    ensures v < 0x8000_0000_0000_0000
  {
  }

  lemma Fits4(v: bv64, k: nat)
    ensures Fits(v, k + 4) <==> Fits(Shr4(v), k)
  {
    Shift4(v);
    hide Half;
    hide Shr4;
    assert Fits(v, k + 4) <==> Fits(Half(v), k + 3);
    assert Fits(Half(v), k + 3) <==> Fits(Half(Half(v)), k + 2);
    assert Fits(Half(Half(v)), k + 2) <==> Fits(Half(Half(Half(v))), k + 1);
  }

  lemma Fits20(v: bv64, k: nat)
    ensures Fits(v, k + 20) <==> Fits(Shr20(v), k)
  {
    Shift20(v);
    hide Fits;
    hide Shr4;
    hide Shr20;
    Fits4(v, k + 16);
    Fits4(Shr4(v), k + 12);
    Fits4(Shr4(Shr4(v)), k + 8);
    Fits4(Shr4(Shr4(Shr4(v))), k + 4);
    Fits4(Shr4(Shr4(Shr4(Shr4(v)))), k);
  }

  lemma Fits60(v: bv64, k: nat)
    ensures Fits(v, k + 60) <==> Fits(Shr60(v), k)
  {
    Shift60(v);
    hide Fits;
    hide Shr20;
    hide Shr60;
    Fits20(v, k + 40);
    Fits20(Shr20(v), k + 20);
    Fits20(Shr20(Shr20(v)), k);
  }

  lemma AllFit(v: bv64)
    ensures Fits(v, 64)
  {
    hide Half;
    hide Shr4;
    hide Shr60;
    Fits60(v, 4);
    Fits4(Shr60(v), 0);
    Shift64(v);
  }

  lemma Below63(v: bv64)
    requires Fits(v, 63)
    ensures v < 0x8000_0000_0000_0000
  {
    hide Half;
    hide Shr60;
    Fits60(v, 3);
    var w := Shr60(v);
    assert Fits(w, 3) <==> Fits(Half(w), 2);
    assert Fits(Half(w), 2) <==> Fits(Half(Half(w)), 1);
    assert Fits(Half(Half(w)), 1) <==> Fits(Half(Half(Half(w))), 0);
    Shift63(v);
  }

  lemma {:induction false} FitsMore(v: bv64, k: nat, n: nat)
    requires Fits(v, k) && k <= n
    ensures Fits(v, n)
    decreases n
  {
    if n > 0 {
      ZeroHalf();
      hide Half;
      FitsMore(Half(v), if k == 0 then 0 else k - 1, n - 1);
    }
  }

  lemma {:induction false} RegFits(n: nat, k: nat)
    requires k <= 64
    ensures Fits(RegLow(n, k), k)
    decreases k
  {
    hide Half;
    hide Double;
    if k > 0 {
      var y := RegLow(n / 2, k - 1);
      RegFits(n / 2, k - 1);
      FitsMore(y, k - 1, 63);
      Below63(y);
      DoubleHalf(y, n % 2 == 1);
    }
  }

  /** A number of `k` bits is found again in the low bits of its register. */
  lemma {:induction false} NumOfRegLow(n: nat, k: nat, j: nat)
    requires n < Pow2(k) && k <= j <= 64
    ensures NumLow(RegLow(n, j), k) == n
    decreases k
  {
    hide Half;
    hide Odd;
    hide Double;
    if k > 0 {
      var y := RegLow(n / 2, j - 1);
      NumOfRegLow(n / 2, k - 1, j - 1);
      RegFits(n / 2, j - 1);
      FitsMore(y, j - 1, 63);
      Below63(y);
      DoubleOdd(y, n % 2 == 1);
      DoubleHalf(y, n % 2 == 1);
    }
  }

  function Or(v: bv64, m: bv64): bv64 { v | m }

  /** The low `k` bits of a mask are clear. */
  predicate LowClear(m: bv64, k: nat) {
    k == 0 || (!Odd(m) && LowClear(Half(m), k - 1))
  }

  lemma OrParts(v: bv64, m: bv64)
    ensures Half(Or(v, m)) == Or(Half(v), Half(m)) && (Odd(Or(v, m)) <==> Odd(v) || Odd(m))
  {
  }

  lemma {:induction false} OrKeepsLow(v: bv64, m: bv64, k: nat)
    requires LowClear(m, k)
    ensures NumLow(Or(v, m), k) == NumLow(v, k)
    decreases k
  {
    hide Half;
    hide Odd;
    hide Or;
    if k > 0 {
      OrParts(v, m);
      OrKeepsLow(Half(v), Half(m), k - 1);
    }
  }

  lemma Clear4(m: bv64, k: nat)
    requires m & 15 == 0 && LowClear(Shr4(m), k)
    ensures LowClear(m, k + 4)
  {
    FourEven(m);
    Shift4(m);
    hide Half;
    hide Odd;
    hide Shr4;
    assert LowClear(Half(Half(Half(m))), k + 1);
    assert LowClear(Half(Half(m)), k + 2);
    assert LowClear(Half(m), k + 3);
  }

  lemma FourEven(m: bv64)
    requires m & 15 == 0
    ensures !Odd(m) && !Odd(Half(m)) && !Odd(Half(Half(m))) && !Odd(Half(Half(Half(m))))
  {
  }

  const UPPER_HALF: bv64 := 0xFFFF_FFFF_0000_0000

  lemma UpperClear()
    ensures LowClear(UPPER_HALF, 32)
  {
    hide LowClear;
    assert LowClear(0xFFFF_FFFF, 0) by { NothingClear(); }
    Clear4(0xF_FFFF_FFF0, 0);
    Clear4(0xFF_FFFF_FF00, 4);
    Clear4(0xFFF_FFFF_F000, 8);
    Clear4(0xFFFF_FFFF_0000, 12);
    Clear4(0xF_FFFF_FFF0_0000, 16);
    Clear4(0xFF_FFFF_FF00_0000, 20);
    Clear4(0xFFF_FFFF_F000_0000, 24);
    Clear4(UPPER_HALF, 28);
  }

  lemma NothingClear()
    ensures LowClear(0xFFFF_FFFF, 0)
  {
  }

  lemma {:induction false} RegOfNumLow(v: bv64, k: nat)
    requires Fits(v, k)
    ensures RegLow(NumLow(v, k), k) == v
    decreases k
  {
    hide Half;
    hide Odd;
    hide Double;
    hide Pow2;
    if k > 0 {
      RegOfNumLow(Half(v), k - 1);
      HalfDouble(v);
      hide Fits;
      var n := NumLow(v, k);
      assert n / 2 == NumLow(Half(v), k - 1) && (n % 2 == 1 <==> Odd(v));
      hide NumLow;
    }
  }

  /** Reading a register as a number and back gives the register. */
  lemma RegOfNum(v: bv64)
    ensures Reg(Num(v)) == v
  {
    AllFit(v);
    RegOfNumLow(v, 64);
  }

  lemma ZeroNum(v: bv64)
    ensures Num(v) == 0 <==> v == 0
  {
    RegOfNum(v);
    RegOfNum(0);
    ZeroLow(64);
    hide NumLow;
    hide RegLow;
  }

  lemma {:induction false} ZeroLow(k: nat)
    ensures NumLow(0, k) == 0
  {
    if k > 0 {
      ZeroHalf();
      hide Half;
      hide Odd;
      ZeroLow(k - 1);
    }
  }

  lemma ZeroHalf()
    ensures Half(0) == 0 && !Odd(0)
  {
  }

  // ---------- multiplication and division instructions ----------

  /** A word of twice `half` values read as a signed number. */
  function Signed(m: int, half: nat): int {
    if m < half then m else m - 2 * half
  }

  /** C division, which truncates toward zero. */
  function Truncated(a: int, b: int): int
    requires b != 0
  {
    if a >= 0 then (if b > 0 then a / b else -(a / -b)) else if b > 0 then -(-a / b) else -a / -b
  }

  /** The signed quotient and remainder, `half` being the number no operand reaches. */
  function DivS(a: int, b: int, half: nat): int {
    if b == 0 then -1 else if a == 0 - half && b == -1 then a else Truncated(a, b)
  }

  function RemS(a: int, b: int, half: nat): int {
    if b == 0 then a else if a == 0 - half && b == -1 then 0 else a - b * Truncated(a, b)
  }

  /** The unsigned ones, on words below `size`. */
  function DivU(a: nat, b: nat, size: nat): int {
    if b == 0 then size - 1 else a / b
  }

  function RemU(a: nat, b: nat): nat {
    if b == 0 then a else a % b
  }

  /** Truncating division: an exact decomposition whose remainder is smaller than the divisor
      and has the sign of the dividend. */
  lemma TruncatedIs(a: int, b: int)
    requires b != 0
    ensures var r := a - b * Truncated(a, b);
      && (if b > 0 then -b < r < b else b < r < -b)
      && (a >= 0 ==> r >= 0) && (a <= 0 ==> r <= 0)
  {
    var x: nat, y: nat := if a >= 0 then a else -a, if b > 0 then b else -b;
    assert x == x / y * y + x % y && 0 <= x % y < y;
    if (a >= 0) == (b > 0) {
      assert b * (x / y) == if b > 0 then x / y * y else -(x / y * y);
    } else {
      assert b * -(x / y) == if b > 0 then -(x / y * y) else x / y * y;
    }
  }

  /** Quotient and remainder of every pair of operands, zero divisor and overflow included, are
      words, and dividend = divisor * quotient + remainder holds modulo the word size. */
  lemma DivisionIs(a: int, b: int, half: nat)
    requires 0 - half <= a < half && 0 - half <= b < half
    ensures var q, r := DivS(a, b, half), RemS(a, b, half);
      && 0 - half <= q < half && 0 - half <= r < half
      && (b * q + r == a || b * q + r == a + 2 * half)
  {
    if b != 0 && !(a == 0 - half && b == -1) {
      TruncatedIs(a, b);
      QuotientBound(a, b, half);
    }
  }

  lemma QuotientBound(a: int, b: int, half: nat)
    requires 0 - half <= a < half && b != 0 && !(a == 0 - half && b == -1)
    ensures 0 - half <= Truncated(a, b) < half
  {
    var x: nat, y: nat := if a >= 0 then a else -a, if b > 0 then b else -b;
    QuotientShrinks(x, y);
    assert Truncated(a, b) == if (a >= 0) == (b > 0) then x / y else -(x / y);
    hide Truncated;
  }

  lemma QuotientShrinks(x: nat, y: nat)
    requires y >= 1
    ensures 0 <= x / y <= x && (y >= 2 && x > 0 ==> x / y < x)
  {
    var q := x / y;
    DivMod(x, y);
    if q > 0 {
      MulOrder(1, y, q);
      MulOrder(2, y, q);
    }
  }

  lemma UnsignedDivisionIs(a: nat, b: nat, size: nat)
    requires a < size && b < size
    ensures var q, r := DivU(a, b, size), RemU(a, b); 0 <= q < size && r < size && b * q + r == a
  {
    if b != 0 {
      var q, r := a / b, a % b;
      DivMod(a, b);
      DivNonneg(a, b);
      QuotientFits(a, b, q, r);
    }
  }

  lemma QuotientFits(a: nat, b: nat, q: nat, r: nat)
    requires b >= 1 && a == q * b + r
    ensures q <= a && b * q + r == a
  {
    if q > 0 {
      MulOrder(1, b, q);
    }
  }

  /** Opcode OP with funct7 = 1: the value for operands `m` and `n`. */
  function MulDivNum(f3: bv32, m: nat, n: nat): int {
    var (a, b) := (Signed(m, WORD / 2), Signed(n, WORD / 2));
    match f3
    case 0 => a * b
    case 1 => a * b / WORD
    case 2 => a * n / WORD
    case 3 => m * n / WORD
    case 4 => DivS(a, b, WORD / 2)
    case 5 => DivU(m, n, WORD)
    case 6 => RemS(a, b, WORD / 2)
    case _ => RemU(m, n)
  }

  function MulDiv(f3: bv32, v: bv64, w: bv64): bv64 {
    Reg(MulDivNum(f3, Num(v), Num(w)) % WORD)
  }

  const HALF_WORD: nat := 0x1_0000_0000

  /** Opcode OP-32 with funct7 = 1, on the low halves; the code has no case for funct3 1 to 3. */
  function MulDiv32Num(f3: bv32, m: nat, n: nat): int {
    var (a, b) := (Signed(m, HALF_WORD / 2), Signed(n, HALF_WORD / 2));
    match f3
    case 0 => a * b
    case 4 => DivS(a, b, HALF_WORD / 2)
    case 5 => DivU(m, n, HALF_WORD)
    case 6 => RemS(a, b, HALF_WORD / 2)
    case _ => RemU(m, n)
  }

  function MulDiv32(f3: bv32, v: bv64, w: bv64): bv64 {
    var r := MulDiv32Num(f3, Num(v) % HALF_WORD, Num(w) % HALF_WORD) % HALF_WORD;
    Reg(Signed(r, HALF_WORD / 2) % WORD)
  }
}
