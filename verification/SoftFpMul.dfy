/** Multiplication, division and square root (softfp_template.h:349-399, 589-653, 720-767). */
module SoftFpMul {
  import opened Bits
  import opened Ieee
  import opened Sticky
  import opened SoftFpRound
  import opened Operand
  import opened WordArith

  /** Any operation with a NaN operand: the quiet NaN, invalid only for signalling ones. */
  ghost predicate NaNResult(f: Format, signalling: bool, before: set<Flag>, after: set<Flag>, r: nat)
    requires f.Valid()
  {
    r == f.QNaN() && after == before + (if signalling then {NV} else {})
  }

  ghost function Product(f: Format, a: nat, b: nat): real
    requires f.Valid()
  {
    Value(f, a) * Value(f, b)
  }

  ghost predicate ProductIs(f: Format, rm: Mode, a: nat, b: nat, before: set<Flag>, after: set<Flag>, r: nat)
    requires f.Valid()
  {
    var sign := SignOf(f, a) != SignOf(f, b);
    if NaN(f, a) || NaN(f, b) then
      NaNResult(f, Signalling(f, a) || Signalling(f, b), before, after, r)
    else if (Infinite(f, a) && Magnitude(f, b) == 0) || (Infinite(f, b) && Magnitude(f, a) == 0) then
      r == f.QNaN() && after == before + {NV}
    else if Infinite(f, a) || Infinite(f, b) then
      r == Encode(f, sign, f.Inf()) && after == before
    else Delivers(f, rm, sign, Num(Product(f, a, b)), before, after, r)
  }

  /** mul_sf. */
  method MulSf(fcsr: Fcsr, f: Format, a: nat, b: nat, rm: Mode) returns (r: nat)
    requires f.Valid() && IsWord(f, a) && IsWord(f, b)
    modifies fcsr
    ensures ProductIs(f, rm, a, b, old(fcsr.raised), fcsr.raised, r)
  {
    hide Pow2;
    hide Delivers;
    hide SignOf;
    hide Magnitude;
    hide ExpOf;
    hide MantOf;
    hide BitOr;
    hide Shl;
    hide Jam;
    hide Value;
    hide Product;
    hide Ready;
    hide PackSf;
    hide Encode;
    hide NormalizeSubnormal;
    hide IsNanSf;
    hide IsSigNanSf;
    hide Format.ExpMask;
    hide Format.Inf;
    hide Format.Bias;
    hide Format.QNaN;
    ClassesByFields(f, a);
    ClassesByFields(f, b);
    FieldsOf(f, a);
    FieldsOf(f, b);
    PackSpecial(f, SignOf(f, a) != SignOf(f, b));
    assert fcsr.raised + {} == fcsr.raised;
    var rSign := SignOf(f, a) != SignOf(f, b);
    var aExp: int, bExp: int := ExpOf(f, a), ExpOf(f, b);
    var aMant, bMant := MantOf(f, a), MantOf(f, b);
    if aExp == f.ExpMask() || bExp == f.ExpMask() {
      if IsNanSf(f, a) || IsNanSf(f, b) {
        if IsSigNanSf(f, a) || IsSigNanSf(f, b) {
          fcsr.raised := fcsr.raised + {NV};
        }
        return f.QNaN();
      } else if (aExp == f.ExpMask() && bExp == 0 && bMant == 0)
             || (bExp == f.ExpMask() && aExp == 0 && aMant == 0) {
        fcsr.raised := fcsr.raised + {NV};
        return f.QNaN();
      } else {
        return PackSf(f, rSign, f.ExpMask(), 0);
      }
    }
    Pow2Mono(f.mant, f.size);
    ProductZero(f, rm, a, b, fcsr.raised);
    if aExp == 0 {
      if aMant == 0 {
        return PackSf(f, rSign, 0, 0);
      }
      var s := NormalizeSubnormal(f, aMant);
      aExp, aMant := s.0, s.1;
    } else {
      aMant := BitOr(aMant, Pow2(f.mant));
    }
    if bExp == 0 {
      if bMant == 0 {
        return PackSf(f, rSign, 0, 0);
      }
      var s := NormalizeSubnormal(f, bMant);
      bExp, bMant := s.0, s.1;
    } else {
      bMant := BitOr(bMant, Pow2(f.mant));
    }
    assert (aExp, aMant) == Significand(f, a) && (bExp, bMant) == Significand(f, b);
    var rExp := aExp + bExp - Pow2(f.exp - 1) + 2;
    ghost var p := Shl(f.size, aMant, f.Rnd()) * Shl(f.size, bMant, f.Rnd() + 1);
    ProductReady(f, a, b, aExp, aMant, bExp, bMant, p);
    var high, low := MulU(f, Shl(f.size, aMant, f.Rnd()), Shl(f.size, bMant, f.Rnd() + 1));
    var rMant := BitOr(high, B2N(low != 0));
    WordJam(f.size, high, low);
    r := NormalizeSf(fcsr, f, rSign, rExp, rMant, rm, Num(Product(f, a, b)));
  }

  lemma PackSpecial(f: Format, sign: bool)
    requires f.Valid()
    ensures PackSf(f, sign, 0, 0) == Encode(f, sign, 0)
    ensures PackSf(f, sign, f.ExpMask(), 0) == Encode(f, sign, f.Inf())
  {
    hide Pow2;
    hide PackSf;
    PackLimits(f, sign);
    PackIs(f, sign, 0, 0);
    ModSmall(0, Pow2(f.mant));
  }

  lemma ProductZero(f: Format, rm: Mode, a: nat, b: nat, before: set<Flag>)
    requires f.Valid()
    ensures Magnitude(f, a) == 0 || Magnitude(f, b) == 0 ==>
              var sign := SignOf(f, a) != SignOf(f, b);
              Delivers(f, rm, sign, Num(Product(f, a, b)), before, before, Encode(f, sign, 0))
  {
    hide Val;
    hide Delivers;
    hide Magnitude;
    if Magnitude(f, a) == 0 || Magnitude(f, b) == 0 {
      ZeroVal(f);
      InfAtLeast(f);
      assert Product(f, a, b) == 0.0;
      ExactDelivers(f, rm, SignOf(f, a) != SignOf(f, b), 0, before);
    }
  }

  /** A product's high word with the low word folded into its last bit. */
  lemma WordJam(w: nat, high: nat, low: nat)
    requires low < Pow2(w)
    ensures BitOr(high, B2N(low != 0)) == Jam(high * Pow2(w) + low, w)
  {
    hide Pow2;
    hide BitOr;
    DivUnique(high * Pow2(w) + low, Pow2(w), high, low);
  }

  /** The exact product, in units of the low word, and its normalisation. */
  lemma ProductReady(f: Format, a: nat, b: nat, ea: int, ma: nat, eb: int, mb: nat, p: nat)
    requires f.Valid() && IsWord(f, a) && IsWord(f, b)
    requires Magnitude(f, a) != 0 && Magnitude(f, b) != 0
    requires (ea, ma) == Significand(f, a) && (eb, mb) == Significand(f, b)
    requires p == Shl(f.size, ma, f.Rnd()) * Shl(f.size, mb, f.Rnd() + 1)
    ensures Shl(f.size, ma, f.Rnd()) < Pow2(f.size) && Shl(f.size, mb, f.Rnd() + 1) < Pow2(f.size)
    ensures Jam(p, f.size) < Pow2(f.size - 1)
    ensures Ready(f, Num(Product(f, a, b)), ea + eb - Pow2(f.exp - 1) + 2, Jam(p, f.size))
  {
    hide Pow2;
    hide P2;
    hide Jam;
    hide Value;
    hide Significand;
    hide Magnitude;
    hide Shl;
    hide Ready;
    SignificandIs(f, a);
    SignificandIs(f, b);
    var s, t := Significand(f, a), Significand(f, b);
    TopAligned(f, s.1, f.Rnd());
    TopAligned(f, t.1, f.Rnd() + 1);
    ProductSize(f, s.1, t.1);
    var m, n := s.1 * Pow2(f.Rnd()), t.1 * Pow2(f.Rnd() + 1);
    FactorsScaled(f, Value(f, a), Value(f, b), s.0, s.1, t.0, t.1);
    hide Format.Bias;
    assert m == Shl(f.size, s.1, f.Rnd()) && n == Shl(f.size, t.1, f.Rnd() + 1) && p == m * n;
    assert Product(f, a, b) == Value(f, a) * Value(f, b);
    hide Product;
    hide Unit;
    ProductRounds(f, Product(f, a, b), s.0 + t.0 - Pow2(f.exp - 1) + 2, p);
  }

  /** The exact product of two significands, moved up to the alignment the code multiplies at. */
  lemma FactorsScaled(f: Format, a: real, b: real, ea: int, ma: nat, eb: int, mb: nat)
    requires f.Valid()
    requires a == ma as real * P2(ea - f.Bias() - f.mant) && b == mb as real * P2(eb - f.Bias() - f.mant)
    ensures var m, n := ma * Pow2(f.Rnd()), mb * Pow2(f.Rnd() + 1);
      a * b == (m * n) as real * P2(Unit(f, ea + eb - Pow2(f.exp - 1) + 2) - f.size)
  {
    hide Pow2;
    hide P2;
    var g, h := ea - f.Bias() - f.mant, eb - f.Bias() - f.mant;
    ScaleInto(ma, f.Rnd(), g, a);
    ScaleInto(mb, f.Rnd() + 1, h, b);
    ProductScaled(a, b, ma * Pow2(f.Rnd()), mb * Pow2(f.Rnd() + 1), g - f.Rnd(), h - (f.Rnd() + 1));
    assert Unit(f, ea + eb - Pow2(f.exp - 1) + 2) - f.size == g - f.Rnd() + (h - (f.Rnd() + 1));
  }

  lemma ProductScaled(a: real, b: real, m: int, n: int, g: int, h: int)
    requires a == m as real * P2(g) && b == n as real * P2(h)
    ensures a * b == (m * n) as real * P2(g + h)
  {
    hide P2;
    P2Add(g, h);
    FourWay(a, b, m as real, n as real, P2(g), P2(h), P2(g + h));
    assert (m * n) as real == m as real * n as real;
  }

  lemma FourWay(a: real, b: real, m: real, n: real, x: real, y: real, xy: real)
    requires a == m * x && b == n * y && xy == x * y
    ensures a * b == (m * n) * xy
  {
    assert (m * x) * (n * y) == (m * n) * (x * y);
  }

  /** A significand moved up by `t` guard bits is a word of exactly `mant + 1 + t` bits. */
  lemma TopAligned(f: Format, m: nat, t: nat)
    requires f.Valid() && Pow2(f.mant) <= m < 2 * Pow2(f.mant) && f.mant + 1 + t <= f.size
    ensures Shl(f.size, m, t) == m * Pow2(t)
    ensures Pow2(f.mant + t) <= m * Pow2(t) < Pow2(f.mant + 1 + t) <= Pow2(f.size)
  {
    hide Pow2;
    hide Shl;
    Pow2Add(1, f.mant);
    OnePow();
    Pow2Add(f.mant, t);
    Pow2Add(f.mant + 1, t);
    MulOrder(Pow2(f.mant), m, Pow2(t));
    MulOrder(m, Pow2(f.mant + 1), Pow2(t));
    Pow2Mono(f.mant + 1 + t, f.size);
    ShlSmall(f.size, m, t);
  }

  lemma ProductSize(f: Format, m: nat, n: nat)
    requires f.Valid() && Pow2(f.mant) <= m < 2 * Pow2(f.mant) && Pow2(f.mant) <= n < 2 * Pow2(f.mant)
    ensures var p := (m * Pow2(f.Rnd())) * (n * Pow2(f.Rnd() + 1));
      Pow2(2 * f.size - 3) <= p < Pow2(2 * f.size - 1)
  {
    hide Pow2;
    TopAligned(f, m, f.Rnd());
    TopAligned(f, n, f.Rnd() + 1);
    var x, y := m * Pow2(f.Rnd()), n * Pow2(f.Rnd() + 1);
    assert f.mant + f.Rnd() == f.size - 2;
    Pow2Add(f.size - 2, f.size - 1);
    Pow2Add(f.size - 1, f.size);
    ProductBetween(x, y, Pow2(f.size - 2), Pow2(f.size - 1), Pow2(f.size - 1), Pow2(f.size));
  }

  lemma ProductBetween(x: nat, y: nat, xl: nat, yl: nat, xh: nat, yh: nat)
    requires xl <= x < xh && yl <= y < yh && xl > 0 && yl > 0
    ensures xl * yl <= x * y < xh * yh
  {
    MulOrder(xl, x, yl);
    MulOrder(yl, y, x);
    MulOrder(x, xh, y);
    MulOrder(y, yh, xh);
  }

  lemma ProductRounds(f: Format, v: real, exp: int, p: nat)
    requires f.Valid() && Pow2(2 * f.size - 3) <= p < Pow2(2 * f.size - 1)
    requires v == p as real * P2(Unit(f, exp) - f.size)
    ensures Jam(p, f.size) < Pow2(f.size - 1)
    ensures Ready(f, Num(v), exp, Jam(p, f.size))
  {
    hide Pow2;
    hide P2;
    hide Jam;
    hide Equals;
    hide Agrees;
    hide Format.Bias;
    var e := Unit(f, exp) - f.size;
    EqualsNum(v, p, e);
    EqualsAgrees(Num(v), p, e);
    AgreesCoarser(Num(v), p, 0, e, f.size + 1);
    AgreesJam(Num(v), p, 1, Unit(f, exp) + 1, f.size);
    JamBetween(f.size, p, f.size - 3, f.size - 1);
    Pow2Mono(f.mant + 2, f.size - 3);
  }

  lemma JamBetween(w: nat, p: nat, lo: nat, hi: nat)
    requires lo < hi && Pow2(w + lo) <= p < Pow2(w + hi)
    ensures Pow2(lo) <= Jam(p, w) < Pow2(hi)
  {
    hide Pow2;
    hide BitOr;
    Pow2Add(lo, w);
    Pow2Add(hi, w);
    HalvePow(hi);
    var s := Pow2(w);
    DivMod(p, s);
    var q := Quot(p, s);
    MulOrder(q + 1, Pow2(lo), s);
    MulOrder(Pow2(hi), q, s);
    Distribute(q, 1, s);
    StickyBit(q, Rem(p, s) != 0);
  }
}
