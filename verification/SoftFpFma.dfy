/** Fused multiply-add (softfp_template.h:401-552). */
module SoftFpFma {
  import opened Bits
  import opened Ieee
  import opened Sticky
  import opened SoftFpRound
  import opened Operand
  import opened WordArith
  import opened SoftFpAdd
  import opened SoftFpMul

  // ---------- alignment of the smaller term ----------

  /** The double word the code adds in place of `(c1 * 2^w + c0) / 2^d`: the jammed shift,
      except that for `w < d < 2w` the low word is dropped without a trace. */
  function AlignedDouble(w: nat, c1: nat, c0: nat, d: nat): nat {
    if w < d < 2 * w then Jam(c1, d - w) else Jam(c1 * Pow2(w) + c0, d)
  }

  /** softfp_template.h:501-516. */
  method AlignDouble(f: Format, c1: nat, c0: nat, shift: nat) returns (m1: nat, m0: nat)
    requires f.Valid() && c1 < Pow2(f.size) && c0 < Pow2(f.size)
    ensures m1 < Pow2(f.size) && m0 < Pow2(f.size)
    ensures m1 * Pow2(f.size) + m0 == AlignedDouble(f.size, c1, c0, shift)
  {
    hide Pow2;
    hide BitOr;
    hide Shl;
    hide Jam;
    var w := f.size;
    m1, m0 := c1, c0;
    if shift >= 2 * w {
      FarShift(w, c1, c0, shift);
      m0 := B2N(BitOr(m0, m1) != 0);
      m1 := 0;
    } else if shift >= w + 1 {
      JamWord(w, c1, shift - w);
      m0 := RShiftRnd(f, m1, shift - w);
      m1 := 0;
    } else if shift == w {
      WordJamFits(w, c1, c0);
      m0 := BitOr(m1, B2N(m0 != 0));
      m1 := 0;
    } else if shift != 0 {
      NearShift(w, c1, c0, c1 * Pow2(w) + c0, shift);
      m0 := BitOr(BitOr(Shl(w, m1, w - shift), Shr(m0, shift)), B2N(Low(m0, shift) != 0));
      m1 := Shr(m1, shift);
    } else {
      JamZero(c1 * Pow2(w) + c0);
    }
  }

  lemma FarShift(w: nat, c1: nat, c0: nat, d: nat)
    requires c1 < Pow2(w) && c0 < Pow2(w) && d >= 2 * w && w >= 1
    ensures B2N(BitOr(c0, c1) != 0) == Jam(c1 * Pow2(w) + c0, d)
    ensures 1 < Pow2(w)
  {
    hide Pow2;
    hide BitOr;
    hide JamBy;
    Pow2Add(w, w);
    Pow2Mono(2 * w, d);
    Pow2Mono(1, w);
    OnePow();
    PairFits(c1, c0, Pow2(w));
    JamAll(c1 * Pow2(w) + c0, Pow2(d));
    WordZero(c1, c0, Pow2(w));
    OrZero(c0, c1);
  }

  lemma OrZero(a: nat, b: nat)
    ensures BitOr(a, b) == 0 <==> a == 0 && b == 0
    decreases a + b
  {
    if a != 0 || b != 0 {
      OrZero(a / 2, b / 2);
    }
  }

  lemma JamWord(w: nat, c: nat, d: nat)
    requires c < Pow2(w) && d >= 1 && w >= 1
    ensures Jam(c, d) < Pow2(w)
  {
    hide Pow2;
    hide JamBy;
    Pow2Mono(1, d);
    HalvePow(w);
    OnePow();
    HalveBound(c, Pow2(d), Pow2(w - 1));
    JamByBounds(c, Pow2(d));
  }

  lemma WordJamFits(w: nat, c1: nat, c0: nat)
    requires c1 < Pow2(w) && c0 < Pow2(w) && w >= 1
    ensures BitOr(c1, B2N(c0 != 0)) == Jam(c1 * Pow2(w) + c0, w) < Pow2(w)
  {
    hide Pow2;
    hide BitOr;
    hide Jam;
    WordJam(w, c1, c0);
    EvenPow(w);
    StickyBit(c1, c0 != 0);
  }

  lemma EvenPow(w: nat)
    requires w >= 1
    ensures Pow2(w) % 2 == 0
  {
    HalvePow(w);
    hide Pow2;
    MulMod(Pow2(w - 1), 2);
  }

  lemma NearShift(w: nat, c1: nat, c0: nat, c: nat, d: nat)
    requires c1 < Pow2(w) && c0 < Pow2(w) && 0 < d < w && c == c1 * Pow2(w) + c0
    ensures var lo := BitOr(BitOr(Shl(w, c1, w - d), Shr(c0, d)), B2N(Low(c0, d) != 0));
      && lo < Pow2(w) && Shr(c1, d) < Pow2(w)
      && Shr(c1, d) * Pow2(w) + lo == Jam(c, d)
  {
    hide Pow2;
    hide BitOr;
    hide Shr;
    hide Low;
    hide Quot;
    hide Rem;
    Pow2Add(d, w - d);
    HalvePow(w);
    var s, h := Pow2(d), Pow2(w - d);
    NearHigh(c1, s, h);
    NearLow(c1, c0, s, h);
    NearQuot(c1, c0, s, h);
    var l := Rem(c1, s) * h + Quot(c0, s);
    MulMod(Rem(c1, s), h);
    BitOrDisjoint(Rem(c1, s) * h, Quot(c0, s), w - d);
    StickyHigh(Quot(c1, s), Pow2(w - 1), l, Rem(c0, s) != 0);
    NearParts(w, c1, c0, d);
  }

  /** The shifts of the code in terms of quotients and remainders. */
  lemma NearParts(w: nat, c1: nat, c0: nat, d: nat)
    requires 0 < d < w
    ensures Shr(c1, d) == Quot(c1, Pow2(d)) && Shr(c0, d) == Quot(c0, Pow2(d)) && Low(c0, d) == Rem(c0, Pow2(d))
    ensures Shl(w, c1, w - d) == Rem(c1 * Pow2(w - d), Pow2(w))
    ensures var c := c1 * Pow2(w) + c0;
      Jam(c, d) == BitOr(Quot(c, Pow2(d)), B2N(Rem(c, Pow2(d)) != 0))
  {
    hide Pow2;
    hide BitOr;
    hide Quot;
    hide Rem;
  }

  /** A sticky bit below an even boundary touches only the low part. */
  lemma StickyHigh(q: nat, half: nat, l: nat, b: bool)
    requires l < 2 * half
    ensures BitOr(q * (2 * half) + l, B2N(b)) == q * (2 * half) + BitOr(l, B2N(b))
    ensures BitOr(l, B2N(b)) < 2 * half
  {
    hide BitOr;
    StickyBit(l, b);
    StickyBit(q * (2 * half) + l, b);
    EvenMul(q, half);
    EvenPlus(q * (2 * half), l);
  }

  lemma NearHigh(c1: nat, s: nat, h: nat)
    requires s >= 1 && h >= 1
    ensures s * h >= 1 && Rem(c1 * h, s * h) == Rem(c1, s) * h
  {
    DivMod(c1, s);
    var q1, r1 := c1 / s, c1 % s;
    MulOrder(r1, s, h);
    MulOrder(0, s, h);
    Distribute(q1 * s, r1, h);
    MulAssoc(q1, s, h);
    DivUnique(c1 * h, s * h, q1, r1 * h);
  }

  lemma NearLow(c1: nat, c0: nat, s: nat, h: nat)
    requires s >= 1 && h >= 1 && c1 < s * h && c0 < s * h
    ensures Quot(c0, s) < h && Rem(c1, s) * h + Quot(c0, s) < s * h
    ensures Quot(c1, s) < s * h
  {
    DivMod(c1, s);
    DivMod(c0, s);
    var q1: nat, r1: nat, q0: nat, r0: nat := Quot(c1, s), Rem(c1, s), Quot(c0, s), Rem(c0, s);
    NearLowAt(c1, c0, s, h, q1, r1, q0, r0);
  }

  lemma NearLowAt(c1: nat, c0: nat, s: nat, h: nat, q1: nat, r1: nat, q0: nat, r0: nat)
    requires s >= 1 && h >= 1 && c1 < s * h && c0 < s * h
    requires c1 == q1 * s + r1 && r1 < s && c0 == q0 * s + r0
    ensures q0 < h && r1 * h + q0 < s * h
    ensures q1 < s * h
  {
    MulOrder(h, q0, s);
    MulOrder(r1 + 1, s, h);
    Distribute(r1, 1, h);
    MulLeft(q1, 1, s);
  }

  /** Splitting a double word at bit `d`. */
  lemma NearQuot(c1: nat, c0: nat, s: nat, h: nat)
    requires s >= 1 && h >= 1
    ensures Quot(c1 * (s * h) + c0, s) == Quot(c1, s) * (s * h) + (Rem(c1, s) * h + Quot(c0, s))
    ensures Rem(c1 * (s * h) + c0, s) == Rem(c0, s)
  {
    DivMod(c1, s);
    DivMod(c0, s);
    var q1, r1, q0, r0 := Quot(c1, s), Rem(c1, s), Quot(c0, s), Rem(c0, s);
    var k := q1 * (s * h) + (r1 * h + q0);
    SplitProduct(c1, q1, r1, q0, s, h);
    Distribute(c1 * h, q0, s);
    assert c1 * (s * h) == (c1 * h) * s;
    DivUnique(c1 * (s * h) + c0, s, k, r0);
  }

  lemma SplitProduct(c1: int, q1: int, r1: int, q0: int, s: int, h: int)
    requires c1 == q1 * s + r1
    ensures q1 * (s * h) + (r1 * h + q0) == c1 * h + q0
  {
    Distribute(q1 * s, r1, h);
    MulAssoc(q1, s, h);
  }

  // ---------- why one rounding is enough ----------

  /** Both terms are double words with their top bit at position `2 * size - 3`. */
  ghost predicate TopDouble(f: Format, m: nat)
    requires f.Valid()
  {
    Pow2(2 * f.size - 3) <= m < Pow2(2 * f.size - 2)
  }

  /** Sum or difference of the larger term `m` and the aligned smaller one. */
  function Combined(m: nat, c: nat, sub: bool): int {
    if sub then m - c else m + c
  }

  /** The aligned sum may be normalised and rounded as if it were exact. */
  lemma FusedRounds(f: Format, x: Exact, exp: int, m: nat, c1: nat, c0: nat, d: nat, sub: bool)
    requires f.Valid() && c0 < Pow2(f.size)
    requires TopDouble(f, m) && TopDouble(f, c1 * Pow2(f.size) + c0)
    requires m % 2 == 0 && c0 % 2 == 0
    requires c0 != 0 ==> m % Pow2(f.size) == 0
    requires d == 0 && sub ==> c1 * Pow2(f.size) + c0 <= m
    requires var c := c1 * Pow2(f.size) + c0;
      Equals(x, if sub then m * Pow2(d) - c else m * Pow2(d) + c, Unit(f, exp) - f.size - d)
    ensures var k := AlignedDouble(f.size, c1, c0, d);
      && (sub ==> k <= m)
      && 0 <= Combined(m, k, sub) < Pow2(2 * f.size - 1)
      && Ready2(f, x, exp, Combined(m, k, sub))
  {
    hide Pow2;
    hide Jam;
    hide Equals;
    hide Agrees;
    hide Ready2;
    hide Format.Bias;
    hide AlignedDouble;
    var w := f.size;
    var c := c1 * Pow2(w) + c0;
    DoubleEven(w, c1, c0);
    if w < d < 2 * w && c0 != 0 {
      DroppedBounds(f, m, c1, c0, d);
      DroppedAgrees(f, x, Unit(f, exp) - w, m, c1, c0, d, sub);
      DroppedReady(f, x, exp, Combined(m, Jam(c1, d - w), sub));
      AlignedIs(w, c1, c0, d);
    } else {
      AlignedIs(w, c1, c0, d);
      JammedBounds(f, m, c, d, sub);
      JammedReady(f, x, exp, m, c, d, sub);
    }
  }

  lemma DoubleEven(w: nat, c1: nat, c0: nat)
    requires w >= 1 && c0 % 2 == 0
    ensures (c1 * Pow2(w) + c0) % 2 == 0
  {
    EvenMul(c1, Pow2(w - 1));
  }

  lemma AlignedIs(w: nat, c1: nat, c0: nat, d: nat)
    ensures w < d < 2 * w ==> AlignedDouble(w, c1, c0, d) == Jam(c1, d - w)
    ensures !(w < d < 2 * w) || c0 == 0 ==> AlignedDouble(w, c1, c0, d) == Jam(c1 * Pow2(w) + c0, d)
  {
    hide Pow2;
    hide JamBy;
    if w < d < 2 * w && c0 == 0 {
      Pow2Add(d - w, w);
      JamCancel(c1, Pow2(d - w), Pow2(w));
    }
  }

  lemma JamCancel(c: nat, s: nat, p: nat)
    requires s >= 1 && p >= 1
    ensures s * p >= 1 && JamBy(c * p, s * p) == JamBy(c, s)
  {
    DivMod(c, s);
    var q, r := c / s, c % s;
    MulOrder(0, s, p);
    MulOrder(r, s, p);
    MulOrder(0, r, p);
    Distribute(q * s, r, p);
    MulAssoc(q, s, p);
    DivUnique(c * p, s * p, q, r * p);
    if r > 0 {
      MulOrder(1, r, p);
    }
  }

  lemma JammedBounds(f: Format, m: nat, c: nat, d: nat, sub: bool)
    requires f.Valid() && TopDouble(f, m) && TopDouble(f, c) && (d == 0 && sub ==> c <= m)
    ensures var k := Jam(c, d);
      && (sub ==> k <= m) && 0 <= Combined(m, k, sub) < Pow2(2 * f.size - 1)
      && (d >= 2 ==> Combined(m, k, sub) >= Pow2(2 * f.size - 4))
  {
    hide Pow2;
    hide Jam;
    HalvePow(2 * f.size - 1);
    HalvePow(2 * f.size - 2);
    HalvePow(2 * f.size - 3);
    HalvePow(2 * f.size - 4);
    var h := Pow2(2 * f.size - 4);
    JamZero(c);
    if d > 0 {
      OnePow();
      JamBounds(c, d);
      Pow2Mono(1, d);
      DivLe(c, 2, Pow2(d));
      if d >= 2 {
        Pow2Mono(2, d);
        DivLe(c, 4, Pow2(d));
      }
    }
  }

  lemma JammedReady(f: Format, x: Exact, exp: int, m: nat, c: nat, d: nat, sub: bool)
    requires f.Valid() && m % 2 == 0 && c % 2 == 0
    requires sub ==> Jam(c, d) <= m
    requires d >= 2 ==> Combined(m, Jam(c, d), sub) >= Pow2(2 * f.size - 4)
    requires Equals(x, if sub then m * Pow2(d) - c else m * Pow2(d) + c, Unit(f, exp) - f.size - d)
    ensures Ready2(f, x, exp, Combined(m, Jam(c, d), sub))
  {
    hide Pow2;
    hide Jam;
    hide Equals;
    hide Agrees;
    hide Format.Bias;
    var e := Unit(f, exp) - f.size;
    if d <= 1 {
      OnePow();
      assert c % Pow2(d) == 0;
      EqualsSum(x, m, c, d, sub, e);
    } else {
      AgreesSum(x, m, c, d, sub, e);
      AgreesCoarser(x, Combined(m, Jam(c, d), sub), 1, e + 1, f.size - 4);
    }
  }

  /** When the low word is dropped the larger term is a whole number of words, so a term
      below `2^(w - 3)` decides every comparison by its sign alone. */
  lemma DroppedBounds(f: Format, m: nat, c1: nat, c0: nat, d: nat)
    requires f.Valid() && c0 < Pow2(f.size) && f.size < d < 2 * f.size
    requires TopDouble(f, m) && TopDouble(f, c1 * Pow2(f.size) + c0)
    ensures 0 < Jam(c1, d - f.size) < Pow2(f.size - 3)
    ensures 0 < c1 * Pow2(f.size) + c0 < Pow2(f.size - 3) * Pow2(d)
    ensures Pow2(f.size - 3) <= m
    ensures var k := Jam(c1, d - f.size);
      m - k >= Pow2(2 * f.size - 4) && m + k < Pow2(2 * f.size - 1)
  {
    hide Pow2;
    hide Jam;
    DroppedTerm(f.size, c1, c0, d);
    var w := f.size;
    HalvePow(2 * w - 1);
    HalvePow(2 * w - 2);
    HalvePow(2 * w - 3);
    Pow2Mono(w - 3, 2 * w - 4);
  }

  lemma DroppedTerm(w: nat, c1: nat, c0: nat, d: nat)
    requires w >= 4 && c0 < Pow2(w) && w < d < 2 * w
    requires Pow2(2 * w - 3) <= c1 * Pow2(w) + c0 < Pow2(2 * w - 2)
    ensures 0 < Jam(c1, d - w) < Pow2(w - 3)
    ensures 0 < c1 * Pow2(w) + c0 < Pow2(w - 3) * Pow2(d)
  {
    hide Pow2;
    hide Jam;
    Pow2Add(w - 2, w);
    Pow2Add(w - 3, w);
    WordAbove(c1, c0, Pow2(w), Pow2(w - 3), Pow2(w - 2));
    HalvePow(w - 2);
    HalvePow(w - 3);
    JamHalf(c1, d - w, Pow2(w - 3));
    Pow2Mono(w + 1, d);
    Pow2Add(w - 3, w + 1);
    MulLeft(Pow2(w - 3), Pow2(w + 1), Pow2(d));
    assert w - 3 + (w + 1) == 2 * w - 2;
  }

  lemma WordAbove(c1: nat, c0: nat, p: nat, lo: nat, hi: nat)
    requires p >= 1 && c0 < p && lo * p <= c1 * p + c0 < hi * p
    ensures lo <= c1 < hi
  {
    MulOrder(c1 + 1, lo, p);
    MulOrder(hi, c1, p);
    Distribute(c1, 1, p);
  }

  lemma JamHalf(c: nat, d: nat, h: nat)
    requires d >= 1 && 0 < c < 2 * h && h % 2 == 0
    ensures 0 < Jam(c, d) < h
  {
    hide Pow2;
    hide BitOr;
    Pow2Mono(1, d);
    OnePow();
    HalveBound(c, Pow2(d), h);
    StickyBit(Quot(c, Pow2(d)), Rem(c, Pow2(d)) != 0);
    JamBounds(c, d);
  }

  lemma DroppedAgrees(f: Format, x: Exact, e: int, m: nat, c1: nat, c0: nat, d: nat, sub: bool)
    requires f.Valid() && m % Pow2(f.size) == 0
    requires var c := c1 * Pow2(f.size) + c0;
      && 0 < c < Pow2(f.size - 3) * Pow2(d)
      && Equals(x, if sub then m * Pow2(d) - c else m * Pow2(d) + c, e - d)
    requires f.size < d && 0 < Jam(c1, d - f.size) < Pow2(f.size - 3)
    ensures Agrees(x, Combined(m, Jam(c1, d - f.size), sub), f.size - 3, e + f.size - 3)
  {
    hide Pow2;
    hide Jam;
    hide Side;
    var w := f.size;
    var j := w - 3;
    var c, k := c1 * Pow2(w) + c0, Jam(c1, d - w);
    var n := if sub then m * Pow2(d) - c else m * Pow2(d) + c;
    EqualsAgrees(x, n, e - d);
    Pow2Add(3, j);
    var q := WholeMultiple(m, Pow2(3), Pow2(j));
    var g, mm := e + j, Combined(m, k, sub);
    forall i: nat
      ensures AgreesAt(x, mm, j, g, i)
    {
      SideScale(x, i, j + d, e - d);
      assert AgreesAt(x, n, 0, e - d, i * Pow2(j + d));
      OnePow();
      Pow2Add(j, d);
      MulAssoc(i, Pow2(j), Pow2(d));
      SmallTermSide(q, i, Pow2(j), Pow2(d), c, k, sub);
    }
  }

  lemma WholeMultiple(m: nat, s: nat, h: nat) returns (q: nat)
    requires s >= 1 && h >= 1 && s * h >= 1 && m % (s * h) == 0
    ensures m == q * h
  {
    DivMod(m, s * h);
    DivNonneg(m, s * h);
    q := (m / (s * h)) * s;
    MulAssoc(m / (s * h), s, h);
  }

  /** `(q - i) * h +- t` has the sign that `q - i`, or failing that the term, has. */
  lemma SmallTermSide(q: nat, i: nat, h: nat, p: nat, c: nat, k: nat, sub: bool)
    requires h >= 1 && p >= 1 && 0 < k < h && 0 < c < h * p
    ensures Sgn((if sub then (q * h) * p - c else (q * h) * p + c) - (i * h) * p)
         == Sgn(Combined(q * h, k, sub) - i * h)
  {
    MulOrder(q + 1, i, h);
    MulOrder(i + 1, q, h);
    Distribute(q, 1, h);
    Distribute(i, 1, h);
    MulOrder(q * h + h, i * h, p);
    MulOrder(i * h + h, q * h, p);
    Distribute(q * h, h, p);
    Distribute(i * h, h, p);
  }

  lemma DroppedReady(f: Format, x: Exact, exp: int, m: int)
    requires f.Valid() && m >= Pow2(2 * f.size - 4)
    requires Agrees(x, m, f.size - 3, Unit(f, exp) - f.size + f.size - 3)
    ensures Ready2(f, x, exp, m)
  {
    hide Pow2;
    hide Agrees;
    hide Equals;
  }

  // ---------- double-word addition and subtraction ----------

  /** Adding double words: the carry out of the low word is `sum < addend`. */
  lemma AddDouble(w: nat, r1: nat, r0: nat, c1: nat, c0: nat)
    requires r0 < Pow2(w) && c0 < Pow2(w)
    requires (r1 * Pow2(w) + r0) + (c1 * Pow2(w) + c0) < Pow2(w) * Pow2(w)
    ensures var s0 := Rem(r0 + c0, Pow2(w));
      var s1 := r1 + c1 + B2N(s0 < c0);
      && s1 < Pow2(w)
      && s1 * Pow2(w) + s0 == (r1 * Pow2(w) + r0) + (c1 * Pow2(w) + c0)
  {
    hide Pow2;
    var p := Pow2(w);
    Distribute(r1, c1, p);
    Distribute(r1 + c1, 1, p);
    if r0 + c0 < p {
      ModSmall(r0 + c0, p);
    } else {
      DivUnique(r0 + c0, p, 1, r0 + c0 - p);
    }
    var s0 := Rem(r0 + c0, p);
    MulOrder(p, r1 + c1 + B2N(s0 < c0), p);
  }

  /** Subtracting double words: the borrow shows as a low word larger than before. */
  lemma SubDouble(w: nat, r1: nat, r0: nat, c1: nat, c0: nat)
    requires r0 < Pow2(w) && c0 < Pow2(w) && r1 < Pow2(w)
    requires c1 * Pow2(w) + c0 <= r1 * Pow2(w) + r0
    ensures var s0 := SubWord(w, r0, c0);
      var s1 := r1 - c1 - B2N(s0 > r0);
      && s0 < Pow2(w) && 0 <= s1 < Pow2(w)
      && s1 * Pow2(w) + s0 == (r1 * Pow2(w) + r0) - (c1 * Pow2(w) + c0)
  {
    hide Pow2;
    var p := Pow2(w);
    Distribute(r1, c1, p);
    Distribute(r1 - c1, 1, p);
    MulOrder(r1 - c1, -1, p);
    MulOrder(r1 - c1, 0, p);
    if r0 >= c0 {
      ModSmall(r0 - c0, p);
    } else {
      DivUnique(r0 - c0, p, -1, r0 - c0 + p);
    }
  }

  lemma Ready2ZeroIff(f: Format, x: Exact, exp: int, m: nat)
    requires f.Valid() && Ready2(f, x, exp, m)
    ensures m == 0 <==> Cmp(x, 0.0) == 0
  {
    hide Pow2;
    hide Format.Bias;
    hide Cmp;
    var e := Unit(f, exp) - f.size;
    if Equals(x, m, e) {
      EqualsAgrees(x, m, e);
      assert AgreesAt(x, m, 0, e, 0);
      SideIs(x, 0, e, 0.0);
    } else {
      assert AgreesAt(x, m, f.size - 3, e + f.size - 3, 0);
      SideIs(x, 0, e + f.size - 3, 0.0);
    }
  }

  // ---------- the finite case ----------

  ghost function Negate(sign: bool, v: real): real {
    if sign then -v else v
  }

  /** A term as a double word: `v` is `(m1 * 2^size + m0)` in the units of exponent `exp`. */
  ghost predicate Term(f: Format, v: real, exp: int, m1: nat, m0: nat)
    requires f.Valid()
  {
    && m1 < Pow2(f.size) && m0 < Pow2(f.size) && m0 % 2 == 0
    && TopDouble(f, m1 * Pow2(f.size) + m0)
    && v == (m1 * Pow2(f.size) + m0) as real * P2(Unit(f, exp) - f.size)
  }

  /** The order established by the swap. */
  lemma LargerTerm(f: Format, v: real, e: int, m1: nat, m0: nat, u: real, h: int, n1: nat, n0: nat)
    requires f.Valid() && Term(f, v, e, m1, m0) && Term(f, u, h, n1, n0)
    requires e > h || (e == h && m1 * Pow2(f.size) + m0 >= n1 * Pow2(f.size) + n0)
    ensures v >= u > 0.0
  {
    hide Pow2;
    hide P2;
    hide TopDouble;
    hide Format.Bias;
    LargerNumber(f, v, e, m1 * Pow2(f.size) + m0, u, h, n1 * Pow2(f.size) + n0);
  }

  lemma LargerNumber(f: Format, v: real, e: int, m: nat, u: real, h: int, n: nat)
    requires f.Valid() && TopDouble(f, m) && TopDouble(f, n)
    requires v == m as real * P2(Unit(f, e) - f.size) && u == n as real * P2(Unit(f, h) - f.size)
    requires e > h || (e == h && m >= n)
    ensures v >= u > 0.0
  {
    hide Pow2;
    hide P2;
    hide TopDouble;
    hide Format.Bias;
    var d := e - h;
    var g := Unit(f, h) - f.size;
    TopDominates(f, m, n, d);
    ScaleInto(m, d, g + d, v);
    CastLe(n, m * Pow2(d), P2(g));
    CastLe(1, n, P2(g));
  }

  lemma TopDominates(f: Format, m: nat, n: nat, d: nat)
    requires f.Valid() && TopDouble(f, m) && TopDouble(f, n) && (d == 0 ==> m >= n)
    ensures 1 <= n <= m * Pow2(d)
  {
    hide Pow2;
    HalvePow(2 * f.size - 2);
    Pow2Mono(0, 2 * f.size - 3);
    OnePow();
    if d > 0 {
      Pow2Mono(1, d);
      MulLeft(m, 2, Pow2(d));
    }
  }

  lemma TermSum(f: Format, v: real, e: int, m1: nat, m0: nat, u: real, h: int, n1: nat, n0: nat, sub: bool)
    requires f.Valid() && Term(f, v, e, m1, m0) && Term(f, u, h, n1, n0) && e >= h
    ensures var d := e - h;
      var m, n := m1 * Pow2(f.size) + m0, n1 * Pow2(f.size) + n0;
      Equals(Num(if sub then v - u else v + u), if sub then m * Pow2(d) - n else m * Pow2(d) + n,
             Unit(f, e) - f.size - d)
  {
    hide Pow2;
    hide P2;
    hide Equals;
    hide Format.Bias;
    hide TopDouble;
    NumberSum(f, v, e, m1 * Pow2(f.size) + m0, u, h, n1 * Pow2(f.size) + n0, sub);
  }

  lemma NumberSum(f: Format, v: real, e: int, m: nat, u: real, h: int, n: nat, sub: bool)
    requires f.Valid() && e >= h
    requires v == m as real * P2(Unit(f, e) - f.size) && u == n as real * P2(Unit(f, h) - f.size)
    ensures Equals(Num(if sub then v - u else v + u), if sub then m * Pow2(e - h) - n else m * Pow2(e - h) + n,
                   Unit(f, e) - f.size - (e - h))
  {
    hide Pow2;
    hide P2;
    hide Equals;
    hide Format.Bias;
    var d := e - h;
    var g := Unit(f, h) - f.size;
    ScaleInto(m, d, g + d, v);
    SumScaled(v, u, m * Pow2(d), n, g);
    EqualsNum(if sub then v - u else v + u, if sub then m * Pow2(d) - n else m * Pow2(d) + n, g);
  }

  /** Everything normalize2_sf needs about the larger term plus or minus the aligned smaller one. */
  lemma TermsReady(f: Format, v: real, e: int, m1: nat, m0: nat, u: real, h: int, n1: nat, n0: nat, sub: bool)
    requires f.Valid() && Term(f, v, e, m1, m0) && Term(f, u, h, n1, n0)
    requires e > h || (e == h && m1 * Pow2(f.size) + m0 >= n1 * Pow2(f.size) + n0)
    requires n0 != 0 ==> m0 == 0
    ensures var x := Num(if sub then v - u else v + u);
      var m, k := m1 * Pow2(f.size) + m0, AlignedDouble(f.size, n1, n0, e - h);
      && (sub ==> k <= m)
      && 0 <= Combined(m, k, sub) < Pow2(2 * f.size - 1)
      && Ready2(f, x, e, Combined(m, k, sub))
      && (Combined(m, k, sub) == 0 <==> (if sub then v - u else v + u) == 0.0)
  {
    hide Pow2;
    hide P2;
    hide Equals;
    hide Ready2;
    hide AlignedDouble;
    hide Format.Bias;
    TermSum(f, v, e, m1, m0, u, h, n1, n0, sub);
    DoubleEven(f.size, m1, m0);
    MulMod(m1, Pow2(f.size));
    var x := Num(if sub then v - u else v + u);
    FusedRounds(f, x, e, m1 * Pow2(f.size) + m0, n1, n0, e - h, sub);
    Ready2ZeroIff(f, x, e, Combined(m1 * Pow2(f.size) + m0, AlignedDouble(f.size, n1, n0, e - h), sub));
  }

  /** softfp_template.h:520-527: double-word addition or subtraction. */
  method CombineWords(w: nat, r1: nat, r0: nat, c1: nat, c0: nat, sub: bool) returns (m1: nat, m0: nat)
    requires r0 < Pow2(w) && c0 < Pow2(w) && r1 < Pow2(w)
    requires var k := Combined(r1 * Pow2(w) + r0, c1 * Pow2(w) + c0, sub);
      0 <= k < Pow2(w) * Pow2(w)
    ensures m1 < Pow2(w) && m0 < Pow2(w)
    ensures m1 * Pow2(w) + m0 == Combined(r1 * Pow2(w) + r0, c1 * Pow2(w) + c0, sub)
  {
    hide Pow2;
    hide SubWord;
    if !sub {
      AddDouble(w, r1, r0, c1, c0);
      m0 := Rem(r0 + c0, Pow2(w));
      m1 := r1 + c1 + B2N(m0 < c0);
    } else {
      SubDouble(w, r1, r0, c1, c0);
      m0 := SubWord(w, r0, c0);
      m1 := r1 - c1 - B2N(m0 > r0);
    }
  }

  /** softfp_template.h:491-550: the sum of two nonzero terms, rounded once. */
  method AddTerms(fcsr: Fcsr, f: Format, rSign0: bool, rExp0: int, r10: nat, r00: nat,
                  cSign0: bool, cExp0: int, c10: nat, rm: Mode, ghost vr: real, ghost vc: real)
    returns (r: nat)
    requires f.Valid() && Term(f, vr, rExp0, r10, r00) && Term(f, vc, cExp0, c10, 0)
    modifies fcsr
    ensures DeliversSum(f, rm, Negate(rSign0, vr) + Negate(cSign0, vc), rm == RDN,
                        old(fcsr.raised), fcsr.raised, r)
  {
    hide Pow2;
    hide Delivers;
    hide Term;
    hide Ready2;
    hide AlignedDouble;
    hide Combined;
    hide Negate;
    hide Abs;
    hide BitOr;
    hide Format.Bias;
    var rSign, rExp, r1: nat, r0: nat := rSign0, rExp0, r10, r00;
    var cSign, cExp, c1: nat, c0: nat := cSign0, cExp0, c10, 0;
    ghost var v, u := vr, vc;
    ghost var sum := Negate(rSign0, vr) + Negate(cSign0, vc);
    TermWords(f, vr, rExp0, r10, r00);
    TermWords(f, vc, cExp0, c10, 0);
    SwapOrder(f.size, r10, r00, c10);
    // the larger term goes first
    if !(rExp > cExp || (rExp == cExp && r1 >= c1)) {
      r1, c1 := c1, r1;
      r0, c0 := c0, r0;
      rExp, cExp := cExp, rExp;
      rSign, cSign := cSign, rSign;
      v, u := u, v;
    }
    assert sum == Negate(rSign, v) + Negate(cSign, u);
    LargerTerm(f, v, rExp, r1, r0, u, cExp, c1, c0);
    SumOfTerms(rSign, cSign, v, u);
    ghost var x := if rSign != cSign then v - u else v + u;
    TermsReady(f, v, rExp, r1, r0, u, cExp, c1, c0, rSign != cSign);
    var shift := rExp - cExp;
    c1, c0 := AlignDouble(f, c1, c0, shift);
    WordSquare(f.size);
    r1, r0 := CombineWords(f.size, r1, r0, c1, c0, rSign != cSign);
    OrZero(r0, r1);
    WordZero(r1, r0, Pow2(f.size));
    if rSign != cSign && BitOr(r0, r1) == 0 {
      // an exact zero takes its sign from the mode
      rSign := rm == RDN;
    }
    HighBelow(f.size, r1, r0);
    r := Normalize2Sf(fcsr, f, rSign, rExp, r1, r0, rm, Num(x));
  }

  /** The signed sum of two terms of which the first is the larger. */
  lemma SumOfTerms(s: bool, t: bool, v: real, u: real)
    requires v >= u > 0.0
    ensures var sum := Negate(s, v) + Negate(t, u);
      var x := if s != t then v - u else v + u;
      && Abs(sum) == x
      && (sum == 0.0 <==> x == 0.0)
      && (sum != 0.0 ==> (sum < 0.0) == s)
      && (s == t ==> x != 0.0)
  {
  }

  lemma TermWords(f: Format, v: real, exp: int, m1: nat, m0: nat)
    requires f.Valid() && Term(f, v, exp, m1, m0)
    ensures m1 < Pow2(f.size) && m0 < Pow2(f.size)
  {
  }

  lemma SwapOrder(w: nat, r1: nat, r0: nat, c1: nat)
    requires r0 < Pow2(w)
    ensures r1 >= c1 ==> r1 * Pow2(w) + r0 >= c1 * Pow2(w) + 0
    ensures r1 < c1 ==> c1 * Pow2(w) + 0 >= r1 * Pow2(w) + r0
  {
    hide Pow2;
    MulOrder(c1, r1, Pow2(w));
    MulOrder(r1 + 1, c1, Pow2(w));
    Distribute(r1, 1, Pow2(w));
  }

  lemma WordSquare(w: nat)
    requires w >= 1
    ensures Pow2(2 * w - 1) <= Pow2(w) * Pow2(w)
  {
    hide Pow2;
    Pow2Add(w, w);
    Pow2Mono(2 * w - 1, 2 * w);
  }

  lemma HighBelow(w: nat, r1: nat, r0: nat)
    requires w >= 1 && r1 * Pow2(w) + r0 < Pow2(2 * w - 1)
    ensures r1 < Pow2(w - 1)
  {
    hide Pow2;
    Pow2Add(w - 1, w);
    MulOrder(Pow2(w - 1), r1, Pow2(w));
  }

  // ---------- the operation ----------

  ghost function SignedProduct(f: Format, a: nat, b: nat): real
    requires f.Valid()
  {
    Negate(SignOf(f, a) != SignOf(f, b), Product(f, a, b))
  }

  ghost predicate FusedIs(f: Format, rm: Mode, a: nat, b: nat, c: nat,
                          before: set<Flag>, after: set<Flag>, r: nat)
    requires f.Valid()
  {
    var rSign, cSign := SignOf(f, a) != SignOf(f, b), SignOf(f, c);
    if NaN(f, a) || NaN(f, b) || NaN(f, c) then
      NaNResult(f, Signalling(f, a) || Signalling(f, b) || Signalling(f, c), before, after, r)
    else if (Infinite(f, a) && Magnitude(f, b) == 0) || (Infinite(f, b) && Magnitude(f, a) == 0)
         || ((Infinite(f, a) || Infinite(f, b)) && Infinite(f, c) && rSign != cSign) then
      r == f.QNaN() && after == before + {NV}
    else if Infinite(f, c) then r == Encode(f, cSign, f.Inf()) && after == before
    else if Infinite(f, a) || Infinite(f, b) then r == Encode(f, rSign, f.Inf()) && after == before
    else DeliversSum(f, rm, SignedProduct(f, a, b) + Signed(f, c), ZeroSign(rm, rSign, cSign),
                     before, after, r)
  }

  predicate InfinityTimesZero(f: Format, a: nat, b: nat)
    requires f.Valid()
  {
    (Infinite(f, a) && Magnitude(f, b) == 0) || (Infinite(f, b) && Magnitude(f, a) == 0)
  }

  /** When the F extension asks a fused multiply-add to raise the invalid flag (section 11.6
      of the RISC-V Unprivileged ISA 20191213): a signalling operand, infinity times zero
      whatever the addend, or infinities of opposite sign. */
  predicate InvalidRequired(f: Format, a: nat, b: nat, c: nat)
    requires f.Valid()
  {
    || Signalling(f, a) || Signalling(f, b) || Signalling(f, c)
    || InfinityTimesZero(f, a, b)
    || (!NaN(f, a) && !NaN(f, b) && (Infinite(f, a) || Infinite(f, b)) && Infinite(f, c)
        && (SignOf(f, a) != SignOf(f, b)) != SignOf(f, c))
  }

  /** The invalid flag is raised as required for all operands but one family: infinity times
      zero plus a NaN that is not signalling. */
  lemma InvalidMet(f: Format, rm: Mode, a: nat, b: nat, c: nat, before: set<Flag>, after: set<Flag>, r: nat)
    requires f.Valid() && FusedIs(f, rm, a, b, c, before, after, r) && NV !in before
    ensures (NV in after <==> InvalidRequired(f, a, b, c)) <==>
            !(InfinityTimesZero(f, a, b) && NaN(f, c) && !Signalling(f, c))
  {
    hide Pow2;
    hide Magnitude;
    hide SignOf;
    hide Encode;
    InfAtLeast(f);
    var rSign, cSign := SignOf(f, a) != SignOf(f, b), SignOf(f, c);
    if Finite(f, a) && Finite(f, b) && Finite(f, c) {
      SumNeverInvalid(f, rm, SignedProduct(f, a, b) + Signed(f, c), ZeroSign(rm, rSign, cSign), before, after, r);
    }
    hide DeliversSum;
    hide Format.Inf;
    hide SignedProduct;
    hide Signed;
  }

  lemma SumNeverInvalid(f: Format, rm: Mode, v: real, zeroSign: bool, before: set<Flag>, after: set<Flag>, r: nat)
    requires f.Valid() && DeliversSum(f, rm, v, zeroSign, before, after, r) && NV !in before
    ensures NV !in after
  {
    hide Val;
    hide Tiny;
    hide RoundsTo;
    hide Encode;
  }

  /** Infinity times zero plus the default NaN: the flag is required and not raised. */
  lemma InvalidMissedExample(f: Format, rm: Mode)
    requires f.Valid()
    ensures FusedIs(f, rm, f.Inf(), 0, f.QNaN(), {}, {}, f.QNaN()) && InvalidRequired(f, f.Inf(), 0, f.QNaN())
    ensures SF32.Inf() == 0x7F80_0000 && SF32.QNaN() == 0x7FC0_0000
  {
    Sf32Words();
    SpecialMagnitudes(f);
    hide Pow2;
    hide Magnitude;
    hide Format.Inf;
    hide SignOf;
  }

  lemma SpecialMagnitudes(f: Format)
    requires f.Valid()
    ensures Magnitude(f, f.Inf()) == f.Inf() && Magnitude(f, f.QNaN()) == f.QNaN() && Magnitude(f, 0) == 0
    ensures f.Inf() < f.QNaN() && !Signalling(f, f.QNaN()) && f.Inf() > 0
  {
    hide Pow2;
    InfAtLeast(f);
    Pow2Add(f.exp, f.mant);
    Pow2Add(1, f.mant - 1);
    OnePow();
    Distribute(f.ExpMask(), 1, Pow2(f.mant));
    assert f.exp + f.mant == f.size - 1;
    DivUnique(0, Pow2(f.size - 1), 0, 0);
    DivUnique(f.Inf(), Pow2(f.size - 1), 0, f.Inf());
    DivUnique(f.QNaN(), Pow2(f.size - 1), 0, f.QNaN());
  }

  lemma Sf32Words()
    ensures SF32.Inf() == 0x7F80_0000 && SF32.QNaN() == 0x7FC0_0000
  {
    assert Pow2(4) == 16;
    hide Pow2;
    Pow2Add(4, 4);
    Pow2Add(8, 8);
    Pow2Add(16, 4);
    OnePow();
    Pow2Add(20, 1);
    Pow2Add(21, 1);
    Pow2Add(22, 1);
  }

  /** fma_sf: the exact `a * b + c` is rounded once. */
  method FmaSf(fcsr: Fcsr, f: Format, a: nat, b: nat, c: nat, rm: Mode) returns (r: nat)
    requires f.Valid() && IsWord(f, a) && IsWord(f, b) && IsWord(f, c)
    modifies fcsr
    ensures FusedIs(f, rm, a, b, c, old(fcsr.raised), fcsr.raised, r)
  {
    hide Pow2;
    hide DeliversSum;
    hide SignOf;
    hide Magnitude;
    hide ExpOf;
    hide MantOf;
    hide BitOr;
    hide Shl;
    hide Value;
    hide Product;
    hide SignedProduct;
    hide Signed;
    hide Ready;
    hide Term;
    hide PackSf;
    hide Encode;
    hide NormalizeSubnormal;
    hide IsNanSf;
    hide IsSigNanSf;
    hide Format.ExpMask;
    hide Format.Inf;
    hide Format.Bias;
    hide Format.QNaN;
    ClassesByFields(f, a);
    ClassesByFields(f, b);
    ClassesByFields(f, c);
    FieldsOf(f, a);
    FieldsOf(f, b);
    FieldsOf(f, c);
    PackSpecial(f, SignOf(f, a) != SignOf(f, b));
    PackSpecial(f, SignOf(f, c));
    PackSpecial(f, rm == RDN);
    assert fcsr.raised + {} == fcsr.raised;
    var rSign, cSign := SignOf(f, a) != SignOf(f, b), SignOf(f, c);
    var aExp: int, bExp: int, cExp: int := ExpOf(f, a), ExpOf(f, b), ExpOf(f, c);
    var aMant, bMant, cMant := MantOf(f, a), MantOf(f, b), MantOf(f, c);
    if aExp == f.ExpMask() || bExp == f.ExpMask() || cExp == f.ExpMask() {
      if IsNanSf(f, a) || IsNanSf(f, b) || IsNanSf(f, c) {
        if IsSigNanSf(f, a) || IsSigNanSf(f, b) || IsSigNanSf(f, c) {
          fcsr.raised := fcsr.raised + {NV};
        }
        return f.QNaN();
      } else {
        // no NaN, some infinity
        if (aExp == f.ExpMask() && bExp == 0 && bMant == 0)
        || (bExp == f.ExpMask() && aExp == 0 && aMant == 0)
        || ((aExp == f.ExpMask() || bExp == f.ExpMask()) && cExp == f.ExpMask() && rSign != cSign) {
          fcsr.raised := fcsr.raised + {NV};
          return f.QNaN();
        } else if cExp == f.ExpMask() {
          return PackSf(f, cSign, f.ExpMask(), 0);
        } else {
          return PackSf(f, rSign, f.ExpMask(), 0);
        }
      }
    }
    if (aExp == 0 && aMant == 0) || (bExp == 0 && bMant == 0) {
      // only the addend counts
      FusedZero(f, rm, a, b, c, fcsr.raised);
      if cExp == 0 && cMant == 0 {
        if cSign != rSign {
          rSign := rm == RDN;
        }
        return PackSf(f, rSign, 0, 0);
      } else {
        return c;
      }
    }
    r := FmaNonzero(fcsr, f, a, b, c, rm);
  }

  /** softfp_template.h:440-550 for a nonzero product and a finite addend. */
  method FmaNonzero(fcsr: Fcsr, f: Format, a: nat, b: nat, c: nat, rm: Mode) returns (r: nat)
    requires f.Valid() && IsWord(f, a) && IsWord(f, b) && IsWord(f, c)
    requires Magnitude(f, a) != 0 && Magnitude(f, b) != 0
    modifies fcsr
    ensures DeliversSum(f, rm, SignedProduct(f, a, b) + Signed(f, c),
                        ZeroSign(rm, SignOf(f, a) != SignOf(f, b), SignOf(f, c)),
                        old(fcsr.raised), fcsr.raised, r)
  {
    hide Pow2;
    hide DeliversSum;
    hide SignOf;
    hide Magnitude;
    hide ExpOf;
    hide MantOf;
    hide BitOr;
    hide Shl;
    hide Shr;
    hide Value;
    hide Product;
    hide SignedProduct;
    hide Signed;
    hide Ready;
    hide Term;
    hide NormalizeSubnormal;
    hide Format.ExpMask;
    hide Format.Inf;
    hide Format.Bias;
    ghost var before := fcsr.raised;
    MantWord(f, a);
    MantWord(f, b);
    MantWord(f, c);
    var rSign, cSign := SignOf(f, a) != SignOf(f, b), SignOf(f, c);
    var aExp: int, bExp: int, cExp: int := ExpOf(f, a), ExpOf(f, b), ExpOf(f, c);
    var aMant, bMant, cMant := MantOf(f, a), MantOf(f, b), MantOf(f, c);
    if aExp == 0 {
      var s := NormalizeSubnormal(f, aMant);
      aExp, aMant := s.0, s.1;
    } else {
      aMant := BitOr(aMant, Pow2(f.mant));
    }
    if bExp == 0 {
      var s := NormalizeSubnormal(f, bMant);
      bExp, bMant := s.0, s.1;
    } else {
      bMant := BitOr(bMant, Pow2(f.mant));
    }
    assert (aExp, aMant) == Significand(f, a) && (bExp, bMant) == Significand(f, b);
    // exact product
    var rExp := aExp + bExp - Pow2(f.exp - 1) + 3;
    FactorsFit(f, a, b);
    var r1, r0 := MulU(f, Shl(f.size, aMant, f.Rnd()), Shl(f.size, bMant, f.Rnd()));
    ProductTerm(f, a, b, r1, r0);
    // bring the top bit to F_SIZE - 3
    if r1 < Pow2(f.size - 3) {
      r1 := BitOr(Shl(f.size, r1, 1), Shr(r0, f.size - 1));
      r0 := Shl(f.size, r0, 1);
      rExp := rExp - 1;
    }
    assert Term(f, Product(f, a, b), rExp, r1, r0);
    // with the addend
    if cExp == 0 && cMant == 0 {
      AddZero(f, rm, a, b, c, rExp, r1, r0);
      r1 := BitOr(r1, B2N(r0 != 0));
      r := NormalizeSf(fcsr, f, rSign, rExp, r1, rm, Num(Product(f, a, b)));
      ProductDelivers(f, rm, a, b, c, before, fcsr.raised, r);
      return;
    }
    if cExp == 0 {
      var s := NormalizeSubnormal(f, cMant);
      cExp, cMant := s.0, s.1;
    } else {
      cMant := BitOr(cMant, Pow2(f.mant));
    }
    assert (cExp, cMant) == Significand(f, c);
    cExp := cExp + 1;
    AddendTerm(f, c);
    var c1 := Shl(f.size, cMant, f.Rnd() - 1);
    r := AddTerms(fcsr, f, rSign, rExp, r1, r0, cSign, cExp, c1, rm, Product(f, a, b), Value(f, c));
    FusedSign(f, rm, a, b, c, before, fcsr.raised, r);
  }

  lemma MantWord(f: Format, a: nat)
    requires f.Valid() && IsWord(f, a)
    ensures MantOf(f, a) < Pow2(f.mant) <= Pow2(f.size)
    ensures Magnitude(f, a) == 0 <==> ExpOf(f, a) == 0 && MantOf(f, a) == 0
  {
    hide Pow2;
    FieldsOf(f, a);
    ClassesByFields(f, a);
    Pow2Mono(f.mant, f.size);
  }

  lemma ProductDelivers(f: Format, rm: Mode, a: nat, b: nat, c: nat, before: set<Flag>, after: set<Flag>, r: nat)
    requires f.Valid()
    requires Delivers(f, rm, SignOf(f, a) != SignOf(f, b), Num(Product(f, a, b)), before, after, r)
    requires var v := SignedProduct(f, a, b) + Signed(f, c);
      v != 0.0 && (v < 0.0) == (SignOf(f, a) != SignOf(f, b)) && Abs(v) == Product(f, a, b)
    ensures DeliversSum(f, rm, SignedProduct(f, a, b) + Signed(f, c),
                        ZeroSign(rm, SignOf(f, a) != SignOf(f, b), SignOf(f, c)), before, after, r)
  {
    hide Delivers;
    hide SignedProduct;
    hide Signed;
    hide Product;
    hide SignOf;
  }

  lemma FusedZero(f: Format, rm: Mode, a: nat, b: nat, c: nat, before: set<Flag>)
    requires f.Valid() && IsWord(f, c) && Finite(f, c)
    requires Magnitude(f, a) == 0 || Magnitude(f, b) == 0
    ensures var s, t := SignOf(f, a) != SignOf(f, b), SignOf(f, c);
      DeliversSum(f, rm, SignedProduct(f, a, b) + Signed(f, c), ZeroSign(rm, s, t), before, before,
                  if Magnitude(f, c) == 0 then Encode(f, ZeroSign(rm, s, t), 0) else c)
  {
    hide Pow2;
    hide Val;
    hide Delivers;
    hide Magnitude;
    hide SignOf;
    hide Encode;
    hide Format.Inf;
    ZeroVal(f);
    assert Product(f, a, b) == 0.0;
    ValueZero(f, c);
    FieldsOf(f, c);
    if Magnitude(f, c) == 0 {
      InfAtLeast(f);
      ExactDelivers(f, rm, ZeroSign(rm, SignOf(f, a) != SignOf(f, b), SignOf(f, c)), 0, before);
    } else {
      ExactDelivers(f, rm, SignOf(f, c), Magnitude(f, c), before);
    }
  }

  lemma FactorsFit(f: Format, a: nat, b: nat)
    requires f.Valid() && IsWord(f, a) && IsWord(f, b)
    requires Magnitude(f, a) != 0 && Magnitude(f, b) != 0
    ensures Shl(f.size, Significand(f, a).1, f.Rnd()) < Pow2(f.size)
    ensures Shl(f.size, Significand(f, b).1, f.Rnd()) < Pow2(f.size)
  {
    hide Pow2;
    hide Significand;
    hide Magnitude;
    SignificandIs(f, a);
    SignificandIs(f, b);
    TopAligned(f, Significand(f, a).1, f.Rnd());
    TopAligned(f, Significand(f, b).1, f.Rnd());
  }

  /** The double-word product, moved up by one bit when its top bit is missing, is a term. */
  lemma ProductTerm(f: Format, a: nat, b: nat, r1: nat, r0: nat)
    requires f.Valid() && IsWord(f, a) && IsWord(f, b)
    requires Magnitude(f, a) != 0 && Magnitude(f, b) != 0
    requires r1 < Pow2(f.size) && r0 < Pow2(f.size)
    requires var s, t := Significand(f, a), Significand(f, b);
      r1 * Pow2(f.size) + r0 == Shl(f.size, s.1, f.Rnd()) * Shl(f.size, t.1, f.Rnd())
    ensures var s, t := Significand(f, a), Significand(f, b);
      var exp := s.0 + t.0 - Pow2(f.exp - 1) + 3;
      && (r1 >= Pow2(f.size - 3) ==> Term(f, Product(f, a, b), exp, r1, r0))
      && (r1 < Pow2(f.size - 3) ==>
            Term(f, Product(f, a, b), exp - 1, BitOr(Shl(f.size, r1, 1), Shr(r0, f.size - 1)), Shl(f.size, r0, 1)))
  {
    hide Pow2;
    hide P2;
    hide Value;
    hide Significand;
    hide Magnitude;
    hide Term;
    hide BitOr;
    hide Shl;
    hide Shr;
    hide Product;
    SignificandIs(f, a);
    SignificandIs(f, b);
    var s, t := Significand(f, a), Significand(f, b);
    TopAligned(f, s.1, f.Rnd());
    TopAligned(f, t.1, f.Rnd());
    ProductRange(f, s.1, t.1);
    var p := (s.1 * Pow2(f.Rnd())) * (t.1 * Pow2(f.Rnd()));
    ProductValue(f, a, b, s.0, s.1, t.0, t.1);
    ProductAligned(f, Product(f, a, b), s.0 + t.0 - Pow2(f.exp - 1) + 3, p, r1, r0);
  }

  lemma ProductValue(f: Format, a: nat, b: nat, e: int, m: nat, h: int, n: nat)
    requires f.Valid()
    requires Value(f, a) == m as real * P2(e - f.Bias() - f.mant)
    requires Value(f, b) == n as real * P2(h - f.Bias() - f.mant)
    ensures Product(f, a, b)
         == ((m * Pow2(f.Rnd())) * (n * Pow2(f.Rnd()))) as real * P2(Unit(f, e + h - Pow2(f.exp - 1) + 3) - f.size)
  {
    hide Pow2;
    hide P2;
    hide Value;
    var g, k := e - f.Bias() - f.mant, h - f.Bias() - f.mant;
    ScaleInto(m, f.Rnd(), g, Value(f, a));
    ScaleInto(n, f.Rnd(), k, Value(f, b));
    ProductScaled(Value(f, a), Value(f, b), m * Pow2(f.Rnd()), n * Pow2(f.Rnd()), g - f.Rnd(), k - f.Rnd());
    assert Unit(f, e + h - Pow2(f.exp - 1) + 3) - f.size == g - f.Rnd() + (k - f.Rnd());
  }

  lemma ProductRange(f: Format, m: nat, n: nat)
    requires f.Valid() && Pow2(f.mant) <= m < 2 * Pow2(f.mant) && Pow2(f.mant) <= n < 2 * Pow2(f.mant)
    ensures var p := (m * Pow2(f.Rnd())) * (n * Pow2(f.Rnd()));
      Pow2(2 * f.size - 4) <= p < Pow2(2 * f.size - 2) && p % 2 == 0
  {
    hide Pow2;
    TopAligned(f, m, f.Rnd());
    TopAligned(f, n, f.Rnd());
    var x, y := m * Pow2(f.Rnd()), n * Pow2(f.Rnd());
    assert f.mant + f.Rnd() == f.size - 2;
    Pow2Add(f.size - 2, f.size - 2);
    Pow2Add(f.size - 1, f.size - 1);
    ProductBetween(x, y, Pow2(f.size - 2), Pow2(f.size - 2), Pow2(f.size - 1), Pow2(f.size - 1));
    HalvePow(f.Rnd());
    assert x * y == (x * n) * Pow2(f.Rnd()) by { MulAssoc(x, n, Pow2(f.Rnd())); }
    EvenMul(x * n, Pow2(f.Rnd() - 1));
  }

  lemma ProductAligned(f: Format, v: real, exp: int, p: nat, r1: nat, r0: nat)
    requires f.Valid() && r1 < Pow2(f.size) && r0 < Pow2(f.size) && p == r1 * Pow2(f.size) + r0
    requires Pow2(2 * f.size - 4) <= p < Pow2(2 * f.size - 2) && p % 2 == 0
    requires v == p as real * P2(Unit(f, exp) - f.size)
    ensures r1 >= Pow2(f.size - 3) ==> Term(f, v, exp, r1, r0)
    ensures r1 < Pow2(f.size - 3) ==>
              Term(f, v, exp - 1, BitOr(Shl(f.size, r1, 1), Shr(r0, f.size - 1)), Shl(f.size, r0, 1))
  {
    hide Pow2;
    hide P2;
    hide BitOr;
    hide Shl;
    hide Shr;
    hide Format.Bias;
    hide Term;
    hide Unit;
    var w := f.size;
    if r1 >= Pow2(w - 3) {
      TopPresent(w, r1, r0);
      MakeTerm(f, v, exp, p, r1, r0);
    } else {
      TopMissing(w, r1, r0);
      var hi, lo := BitOr(Shl(w, r1, 1), Shr(r0, w - 1)), Shl(w, r0, 1);
      DoubledValue(f, v, exp, p);
      MakeTerm(f, v, exp - 1, p * 2, hi, lo);
    }
  }

  lemma DoubledValue(f: Format, v: real, exp: int, p: nat)
    requires f.Valid() && v == p as real * P2(Unit(f, exp) - f.size)
    ensures v == (p * 2) as real * P2(Unit(f, exp - 1) - f.size)
  {
    hide Pow2;
    hide P2;
    hide Format.Bias;
    OnePow();
    ScaleInto(p, 1, Unit(f, exp) - f.size, v);
  }

  lemma TopPresent(w: nat, r1: nat, r0: nat)
    requires w >= 4 && r1 >= Pow2(w - 3)
    ensures r1 * Pow2(w) + r0 >= Pow2(2 * w - 3)
  {
    hide Pow2;
    Pow2Add(w - 3, w);
    MulOrder(Pow2(w - 3), r1, Pow2(w));
  }

  lemma TopMissing(w: nat, r1: nat, r0: nat)
    requires w >= 4 && r1 < Pow2(w - 3) && r0 < Pow2(w) && r1 * Pow2(w) + r0 >= Pow2(2 * w - 4)
    ensures var p := r1 * Pow2(w) + r0;
      var hi, lo := BitOr(Shl(w, r1, 1), Shr(r0, w - 1)), Shl(w, r0, 1);
      && hi < Pow2(w) && lo < Pow2(w) && hi * Pow2(w) + lo == p * 2
      && Pow2(2 * w - 3) <= p * 2 < Pow2(2 * w - 2)
  {
    hide Pow2;
    hide BitOr;
    hide Shl;
    hide Shr;
    Pow2Add(w - 3, w);
    HalvePow(2 * w - 3);
    HalvePow(2 * w - 2);
    HalvePow(2 * w - 1);
    MulOrder(r1 + 1, Pow2(w - 3), Pow2(w));
    Distribute(r1, 1, Pow2(w));
    SmallDouble(w, r1);
    DoubleShl(w, r1, r0, 1);
    OnePow();
    WordSquare(w);
    HighFit(BitOr(Shl(w, r1, 1), Shr(r0, w - 1)), Shl(w, r0, 1), Pow2(w), (r1 * Pow2(w) + r0) * 2);
  }

  lemma MakeTerm(f: Format, v: real, exp: int, p: nat, r1: nat, r0: nat)
    requires f.Valid() && r1 < Pow2(f.size) && r0 < Pow2(f.size) && p == r1 * Pow2(f.size) + r0
    requires Pow2(2 * f.size - 3) <= p < Pow2(2 * f.size - 2) && p % 2 == 0
    requires v == p as real * P2(Unit(f, exp) - f.size)
    ensures Term(f, v, exp, r1, r0)
  {
    hide P2;
    hide Format.Bias;
    EvenMul(r1, Pow2(f.size - 1));
    HalvePow(f.size);
    hide Pow2;
    EvenPlus(r1 * Pow2(f.size), r0);
  }

  lemma SmallDouble(w: nat, r1: nat)
    requires w >= 3 && r1 < Pow2(w - 3)
    ensures r1 * Pow2(1) < Pow2(w)
  {
    hide Pow2;
    OnePow();
    Pow2Mono(w - 3, w - 1);
    HalvePow(w);
  }

  lemma HighFit(hi: nat, lo: nat, p: nat, n: nat)
    requires p >= 1 && n == hi * p + lo && n < p * p
    ensures hi < p
  {
    MulOrder(p, hi, p);
  }

  lemma AddendTerm(f: Format, c: nat)
    requires f.Valid() && IsWord(f, c) && Magnitude(f, c) != 0
    ensures var s := Significand(f, c);
      Term(f, Value(f, c), s.0 + 1, Shl(f.size, s.1, f.Rnd() - 1), 0)
  {
    hide Pow2;
    hide P2;
    hide Value;
    hide Significand;
    hide Magnitude;
    hide Shl;
    SignificandIs(f, c);
    var s := Significand(f, c);
    TopAligned(f, s.1, f.Rnd() - 1);
    var m := s.1 * Pow2(f.Rnd() - 1);
    ScaleInto(s.1, f.Rnd() - 1, s.0 - f.Bias() - f.mant, Value(f, c));
    ScaleInto(m, f.size, s.0 - f.Bias() - f.mant - (f.Rnd() - 1), Value(f, c));
    Pow2Add(f.size - 3, f.size);
    Pow2Add(f.size - 2, f.size);
    MulOrder(Pow2(f.size - 3), m, Pow2(f.size));
    MulOrder(m, Pow2(f.size - 2), Pow2(f.size));
    assert Unit(f, s.0 + 1) - f.size == s.0 - f.Bias() - f.mant - (f.Rnd() - 1) - f.size;
    assert m * Pow2(f.size) + 0 == m * Pow2(f.size);
  }

  /** Adding a zero addend: the product alone is rounded. */
  lemma AddZero(f: Format, rm: Mode, a: nat, b: nat, c: nat, exp: int, r1: nat, r0: nat)
    requires f.Valid() && Term(f, Product(f, a, b), exp, r1, r0) && Magnitude(f, c) == 0
    ensures var m := BitOr(r1, B2N(r0 != 0));
      m < Pow2(f.size - 1) && Ready(f, Num(Product(f, a, b)), exp, m)
    ensures var v := SignedProduct(f, a, b) + Signed(f, c);
      v != 0.0 && (v < 0.0) == (SignOf(f, a) != SignOf(f, b)) && Abs(v) == Product(f, a, b)
  {
    hide Pow2;
    hide P2;
    hide Product;
    hide Value;
    hide BitOr;
    hide Jam;
    hide Ready;
    hide SignOf;
    hide Magnitude;
    hide Format.Bias;
    HalvePow(2 * f.size - 1);
    WordJam(f.size, r1, r0);
    ProductRounds(f, Product(f, a, b), exp, r1 * Pow2(f.size) + r0);
    ValueZero(f, c);
    Pow2Mono(0, 2 * f.size - 3);
    OnePow();
    CastLe(1, r1 * Pow2(f.size) + r0, P2(Unit(f, exp) - f.size));
  }

  lemma FusedSign(f: Format, rm: Mode, a: nat, b: nat, c: nat, before: set<Flag>, after: set<Flag>, r: nat)
    requires f.Valid() && Magnitude(f, a) != 0 && Magnitude(f, b) != 0 && Magnitude(f, c) != 0
    requires DeliversSum(f, rm, Negate(SignOf(f, a) != SignOf(f, b), Product(f, a, b))
                                + Negate(SignOf(f, c), Value(f, c)), rm == RDN, before, after, r)
    ensures DeliversSum(f, rm, SignedProduct(f, a, b) + Signed(f, c),
                        ZeroSign(rm, SignOf(f, a) != SignOf(f, b), SignOf(f, c)), before, after, r)
  {
    hide Delivers;
    hide SignOf;
    hide Magnitude;
    hide Value;
    ValueZero(f, a);
    ValueZero(f, b);
    ValueZero(f, c);
    RealProductPos(Value(f, a), Value(f, b));
  }

  lemma RealProductPos(a: real, b: real)
    requires a > 0.0 && b > 0.0
    ensures a * b > 0.0
  {
  }
}
