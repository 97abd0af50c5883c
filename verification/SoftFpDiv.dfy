/** Division and square root (softfp_template.h:589-653, 720-767). */
module SoftFpDiv {
  import opened Bits
  import opened Ieee
  import opened Sticky
  import opened SoftFpRound
  import opened Operand
  import opened WordArith
  import opened SoftFpMul

  ghost function Quotient(f: Format, a: nat, b: nat): real
    requires f.Valid() && Magnitude(f, b) != 0
  {
    ValueZero(f, b);
    Value(f, a) / Value(f, b)
  }

  ghost predicate QuotientIs(f: Format, rm: Mode, a: nat, b: nat, before: set<Flag>, after: set<Flag>, r: nat)
    requires f.Valid()
  {
    var sign := SignOf(f, a) != SignOf(f, b);
    if NaN(f, a) || NaN(f, b) then
      NaNResult(f, Signalling(f, a) || Signalling(f, b), before, after, r)
    else if (Infinite(f, a) && Infinite(f, b)) || (Magnitude(f, a) == 0 && Magnitude(f, b) == 0) then
      r == f.QNaN() && after == before + {NV}
    else if Infinite(f, a) then r == Encode(f, sign, f.Inf()) && after == before
    else if Infinite(f, b) then r == Encode(f, sign, 0) && after == before
    else if Magnitude(f, b) == 0 then r == Encode(f, sign, f.Inf()) && after == before + {DZ}
    else Delivers(f, rm, sign, Num(Quotient(f, a, b)), before, after, r)
  }

  /** div_sf. */
  method DivSf(fcsr: Fcsr, f: Format, a: nat, b: nat, rm: Mode) returns (r: nat)
    requires f.Valid() && IsWord(f, a) && IsWord(f, b)
    modifies fcsr
    ensures QuotientIs(f, rm, a, b, old(fcsr.raised), fcsr.raised, r)
  {
    hide Pow2;
    hide Delivers;
    hide SignOf;
    hide Magnitude;
    hide ExpOf;
    hide MantOf;
    hide BitOr;
    hide Shl;
    hide Value;
    hide Quotient;
    hide Ready;
    hide PackSf;
    hide Encode;
    hide NormalizeSubnormal;
    hide IsNanSf;
    hide IsSigNanSf;
    hide Format.ExpMask;
    hide Format.Inf;
    hide Format.Bias;
    hide Format.QNaN;
    ClassesByFields(f, a);
    ClassesByFields(f, b);
    FieldsOf(f, a);
    FieldsOf(f, b);
    PackSpecial(f, SignOf(f, a) != SignOf(f, b));
    assert fcsr.raised + {} == fcsr.raised;
    var rSign := SignOf(f, a) != SignOf(f, b);
    var aExp: int, bExp: int := ExpOf(f, a), ExpOf(f, b);
    var aMant, bMant := MantOf(f, a), MantOf(f, b);
    if aExp == f.ExpMask() {
      if aMant != 0 || IsNanSf(f, b) {
        if IsSigNanSf(f, a) || IsSigNanSf(f, b) {
          fcsr.raised := fcsr.raised + {NV};
        }
        return f.QNaN();
      } else if bExp == f.ExpMask() {
        fcsr.raised := fcsr.raised + {NV};
        return f.QNaN();
      } else {
        return PackSf(f, rSign, f.ExpMask(), 0);
      }
    } else if bExp == f.ExpMask() {
      if bMant != 0 {
        if IsSigNanSf(f, a) || IsSigNanSf(f, b) {
          fcsr.raised := fcsr.raised + {NV};
        }
        return f.QNaN();
      } else {
        return PackSf(f, rSign, 0, 0);
      }
    }
    Pow2Mono(f.mant, f.size);
    if bExp == 0 {
      if bMant == 0 {
        // the divisor is zero
        if aExp == 0 && aMant == 0 {
          fcsr.raised := fcsr.raised + {NV};
          return f.QNaN();
        } else {
          fcsr.raised := fcsr.raised + {DZ};
          return PackSf(f, rSign, f.ExpMask(), 0);
        }
      }
      var s := NormalizeSubnormal(f, bMant);
      bExp, bMant := s.0, s.1;
    } else {
      bMant := BitOr(bMant, Pow2(f.mant));
    }
    QuotientZero(f, rm, a, b, fcsr.raised);
    if aExp == 0 {
      if aMant == 0 {
        return PackSf(f, rSign, 0, 0);
      }
      var s := NormalizeSubnormal(f, aMant);
      aExp, aMant := s.0, s.1;
    } else {
      aMant := BitOr(aMant, Pow2(f.mant));
    }
    assert (aExp, aMant) == Significand(f, a) && (bExp, bMant) == Significand(f, b);
    var rExp := aExp - bExp + Pow2(f.exp - 1) - 1;
    DivisorShift(f, a, b);
    var rMant, rem := DivRemU(f, aMant, 0, Shl(f.size, bMant, 2));
    QuotientReady(f, a, b, rMant, rem);
    if rem != 0 {
      rMant := BitOr(rMant, 1);
    }
    r := NormalizeSf(fcsr, f, rSign, rExp, rMant, rm, Num(Quotient(f, a, b)));
  }

  lemma QuotientZero(f: Format, rm: Mode, a: nat, b: nat, before: set<Flag>)
    requires f.Valid() && Magnitude(f, b) != 0
    ensures Magnitude(f, a) == 0 ==>
              var sign := SignOf(f, a) != SignOf(f, b);
              Delivers(f, rm, sign, Num(Quotient(f, a, b)), before, before, Encode(f, sign, 0))
  {
    hide Val;
    hide Delivers;
    hide Magnitude;
    if Magnitude(f, a) == 0 {
      ZeroVal(f);
      InfAtLeast(f);
      ValueZero(f, b);
      assert Quotient(f, a, b) == 0.0;
      ExactDelivers(f, rm, SignOf(f, a) != SignOf(f, b), 0, before);
    }
  }

  /** The divisor, moved up by two bits, exceeds the dividend: divrem_u may be called. */
  lemma DivisorShift(f: Format, a: nat, b: nat)
    requires f.Valid() && IsWord(f, a) && IsWord(f, b) && Magnitude(f, a) != 0 && Magnitude(f, b) != 0
    ensures var t := Significand(f, b);
      Significand(f, a).1 < Shl(f.size, t.1, 2) == 4 * t.1 < Pow2(f.size)
  {
    hide Pow2;
    hide Shl;
    hide Significand;
    hide Magnitude;
    SignificandIs(f, a);
    SignificandIs(f, b);
    OnePow();
    TopAligned(f, Significand(f, b).1, 2);
  }

  /** The quotient of the significands with its remainder as sticky bit. */
  lemma QuotientReady(f: Format, a: nat, b: nat, q: nat, rem: nat)
    requires f.Valid() && IsWord(f, a) && IsWord(f, b)
    requires Magnitude(f, a) != 0 && Magnitude(f, b) != 0
    requires var s, t := Significand(f, a), Significand(f, b);
      q * (4 * t.1) + rem == s.1 * Pow2(f.size) && rem < 4 * t.1
    ensures var s, t := Significand(f, a), Significand(f, b);
      var m := BitOr(q, B2N(rem != 0));
      && m < Pow2(f.size - 1)
      && Ready(f, Num(Quotient(f, a, b)), s.0 - t.0 + Pow2(f.exp - 1) - 1, m)
      && BitOr(q, 0) == q
  {
    hide Pow2;
    hide P2;
    hide Value;
    hide Significand;
    hide Magnitude;
    hide Shl;
    hide BitOr;
    hide Side;
    hide Agrees;
    hide Equals;
    hide Format.Bias;
    SignificandIs(f, a);
    SignificandIs(f, b);
    ValueZero(f, b);
    var s, t := Significand(f, a), Significand(f, b);
    var x := Num(Quotient(f, a, b));
    var e := s.0 - t.0 - (f.size - 2);
    BiasIs(f);
    assert Unit(f, s.0 - t.0 + Pow2(f.exp - 1) - 1) == e;
    QuotientSize(f, s.1, t.1, q, rem);
    forall c: int
      ensures Side(x, c, e) == Sgn(s.1 * Pow2(f.size) - c * (4 * t.1))
    {
      QuotientSide2(f, Value(f, a), Value(f, b), s.0 - f.Bias() - f.mant, t.0 - f.Bias() - f.mant, s.1, t.1, c);
    }
    Distribute(q, 1, 4 * t.1);
    AgreesFloor(x, q, rem != 0, e);
    StickyBit(q, rem != 0);
    BitOrZero(q);
  }

  lemma BiasIs(f: Format)
    requires f.Valid()
    ensures f.Bias() == Pow2(f.exp - 1) - 1
  {
  }

  lemma QuotientSize(f: Format, m: nat, n: nat, q: nat, rem: nat)
    requires f.Valid() && Pow2(f.mant) <= m < 2 * Pow2(f.mant) && Pow2(f.mant) <= n < 2 * Pow2(f.mant)
    requires q * (4 * n) + rem == m * Pow2(f.size) && rem < 4 * n
    ensures Pow2(f.mant + 2) <= q < Pow2(f.size - 1)
    ensures q % 2 == 0 ==> q + 1 < Pow2(f.size - 1)
  {
    hide Pow2;
    HalvePow(f.size);
    HalvePow(f.size - 1);
    HalvePow(f.size - 2);
    Pow2Mono(f.mant + 2, f.size - 3);
    var h := Pow2(f.size - 3);
    assert Pow2(f.size) == 8 * h;
    QuotientRange(m, n, h, q, rem);
  }

  lemma QuotientRange(m: nat, n: nat, h: nat, q: nat, rem: nat)
    requires 0 < n < 2 * m && 0 < m < 2 * n && h >= 1
    requires q * (4 * n) + rem == m * (8 * h) && rem < 4 * n
    ensures h <= q < 4 * h
  {
    var d := 4 * n;
    assert m * (8 * h) == h * (8 * m);
    if q < h {
      MulOrder(q + 1, h, d);
      Distribute(q, 1, d);
      MulLeft(h, d, 8 * m);
    }
    if q >= 4 * h {
      MulOrder(4 * h, q, d);
      assert (4 * h) * d == h * (16 * n);
      MulOrder(8 * m + 8, 16 * n, h);
      Distribute(8 * m, 8, h);
    }
  }

  /** Comparing the real quotient with `c * 2^e` compares integers. */
  lemma QuotientSide2(f: Format, va: real, vb: real, g: int, h: int, m: nat, n: nat, c: int)
    requires f.Valid() && n > 0
    requires va == m as real * P2(g) && vb == n as real * P2(h) && vb > 0.0
    ensures Side(Num(va / vb), c, g - h - (f.size - 2)) == Sgn(m * Pow2(f.size) - c * (4 * n))
  {
    hide Pow2;
    hide P2;
    hide Cmp;
    hide Side;
    var w := f.size - 2;
    var e := g - h - w;
    var t := c as real * P2(e);
    Pow2Add(2, w);
    OnePow();
    ScaleInto(m, w, g, va);
    ProductScaled(t, vb, c, n, e, h);
    assert e + h == g - w;
    CmpDivide(va, vb, t);
    CmpScaled(m * Pow2(w), c * n, P2(g - w), va, t * vb);
    SideIs(Num(va / vb), c, e, t);
    TimesFour(m, Pow2(w), c, n);
  }

  lemma TimesFour(m: int, p: int, c: int, n: int)
    ensures Sgn(m * (4 * p) - c * (4 * n)) == Sgn(m * p - c * n)
  {
    assert m * (4 * p) == 4 * (m * p);
    assert c * (4 * n) == 4 * (c * n);
  }

  lemma CmpDivide(va: real, vb: real, t: real)
    requires vb > 0.0
    ensures Cmp(Num(va / vb), t) == Cmp(Num(va), t * vb)
  {
    var q := va / vb;
    assert q * vb == va;
    CmpTimes(q, vb, t, va);
  }

  lemma CmpTimes(q: real, vb: real, t: real, va: real)
    requires vb > 0.0 && va == q * vb
    ensures Cmp(Num(q), t) == Cmp(Num(va), t * vb)
  {
    if q < t {
      RealOrder(q, t, vb);
    } else if t < q {
      RealOrder(t, q, vb);
    }
  }

  lemma CmpScaled(m: int, n: int, u: real, a: real, b: real)
    requires u > 0.0 && a == m as real * u && b == n as real * u
    ensures Cmp(Num(a), b) == Sgn(m - n)
  {
    if m < n {
      CastOrder(m, n, u);
    } else if n < m {
      CastOrder(n, m, u);
    }
  }

  // ---------- square root ----------

  ghost predicate RootIs(f: Format, rm: Mode, a: nat, before: set<Flag>, after: set<Flag>, r: nat)
    requires f.Valid()
  {
    if NaN(f, a) then NaNResult(f, Signalling(f, a), before, after, r)
    else if Magnitude(f, a) == 0 then r == a && after == before
    else if SignOf(f, a) then r == f.QNaN() && after == before + {NV}
    else if Infinite(f, a) then r == a && after == before
    else Delivers(f, rm, false, Sqrt(Value(f, a)), before, after, r)
  }

  /** The operand whose word-sized iteration fails an assertion. */
  function LargestRadicand(f: Format): int
    requires f.size >= 1
  {
    Pow2(2 * f.size - 2) - 1
  }

  /** sqrtrem_u, both variants, for every operand its comment allows: the root, exactly if the
      iteration starts high enough. */
  method SqrtRemU(f: Format, ah: nat, al: nat) returns (s: nat, inexact: bool, aborted: bool)
    requires f.Valid() && ah < Pow2(f.size - 2) && al < Pow2(f.size)
    ensures ah < Pow2(f.size)
    ensures var a := ah * Pow2(f.size) + al;
      && (aborted <==> !f.hasULong && a == LargestRadicand(f))
      && (a == 0 <==> ah == 0 && al == 0)
      && (!aborted ==> && inexact == (s * s != a) && (a == 0 ==> s == 0)
                       && (a > 0 ==> (IsRoot(s, a) <==> !StartTooLow(f.size, ah, al))))
  {
    hide Pow2;
    hide IsRoot;
    hide AtLeastRoot;
    hide Start;
    hide StartTooLow;
    Pow2Mono(f.size - 2, f.size);
    if ah > 0 || al > 0 {
      StartIff(f.size, ah, al, ah * Pow2(f.size) + al);
    }
    if f.hasULong {
      aborted := false;
      s, inexact := SqrtRemWide(f.size, ah, al);
    } else {
      s, inexact, aborted := SqrtRemWord(f, ah, al);
    }
  }

  /** The call sqrt_sf makes: with a zero low word neither exception applies. */
  method SqrtRemHigh(f: Format, ah: nat) returns (s: nat, inexact: bool)
    requires f.Valid() && 0 < ah < Pow2(f.size - 2)
    ensures IsRoot(s, ah * Pow2(f.size))
    ensures inexact <==> s * s != ah * Pow2(f.size)
  {
    hide Pow2;
    hide IsRoot;
    hide StartTooLow;
    hide LargestRadicand;
    var aborted;
    ZeroLowWord(f, ah);
    s, inexact, aborted := SqrtRemU(f, ah, 0);
    assert ah * Pow2(f.size) + 0 == ah * Pow2(f.size);
  }

  lemma ZeroLowWord(f: Format, ah: nat)
    requires f.Valid() && 0 < ah < Pow2(f.size - 2)
    ensures ah < Pow2(f.size) && 0 < Pow2(f.size)
    ensures ah * Pow2(f.size) + 0 != LargestRadicand(f) && !StartTooLow(f.size, ah, 0)
  {
    HalvePow(f.size);
    HalvePow(2 * f.size - 2);
    hide Pow2;
    Pow2Mono(f.size - 2, f.size);
    EvenMul(ah, Pow2(f.size - 1));
    hide BitLen;
  }

  /** sqrt_sf: the square root is correctly rounded. */
  method SqrtSf(fcsr: Fcsr, f: Format, a: nat, rm: Mode) returns (r: nat)
    requires f.Valid() && IsWord(f, a)
    modifies fcsr
    ensures RootIs(f, rm, a, old(fcsr.raised), fcsr.raised, r)
  {
    hide Pow2;
    hide Delivers;
    hide SignOf;
    hide Magnitude;
    hide ExpOf;
    hide MantOf;
    hide BitOr;
    hide Shl;
    hide Value;
    hide Ready;
    hide PackSf;
    hide Encode;
    hide NormalizeSubnormal;
    hide IsNanSf;
    hide IsSigNanSf;
    hide IsRoot;
    hide Format.ExpMask;
    hide Format.Inf;
    hide Format.Bias;
    hide Format.QNaN;
    ClassesByFields(f, a);
    FieldsOf(f, a);
    PackSpecial(f, false);
    InfAtLeast(f);
    assert fcsr.raised + {} == fcsr.raised;
    var aSign := SignOf(f, a);
    var aExp: int, aMant := ExpOf(f, a), MantOf(f, a);
    if aExp == f.ExpMask() {
      if aMant != 0 {
        if IsSigNanSf(f, a) {
          fcsr.raised := fcsr.raised + {NV};
        }
        return f.QNaN();
      } else if aSign {
        fcsr.raised := fcsr.raised + {NV};
        return f.QNaN();
      } else {
        return a;
      }
    }
    if aSign {
      if aExp == 0 && aMant == 0 {
        return a;
      }
      fcsr.raised := fcsr.raised + {NV};
      return f.QNaN();
    }
    Pow2Mono(f.mant, f.size);
    if aExp == 0 {
      if aMant == 0 {
        return PackSf(f, false, 0, 0);
      }
      var s := NormalizeSubnormal(f, aMant);
      aExp, aMant := s.0, s.1;
    } else {
      aMant := BitOr(aMant, Pow2(f.mant));
    }
    assert (aExp, aMant) == Significand(f, a);
    aExp := aExp - f.Bias();
    if aExp % 2 != 0 {
      aExp := aExp - 1;
      aMant := Shl(f.size, aMant, 1);
    }
    assert (aExp, aMant) == Radicand(f, a);
    r := SqrtPositive(fcsr, f, a, aExp, aMant, rm);
  }

  /** The rest of sqrt_sf, once the exponent is even. */
  method SqrtPositive(fcsr: Fcsr, f: Format, a: nat, e: int, m: nat, rm: Mode) returns (r: nat)
    requires f.Valid() && IsWord(f, a) && Finite(f, a) && Magnitude(f, a) != 0 && !SignOf(f, a)
    requires (e, m) == Radicand(f, a)
    modifies fcsr
    ensures RootIs(f, rm, a, old(fcsr.raised), fcsr.raised, r)
  {
    hide Pow2;
    hide Delivers;
    hide SignOf;
    hide Magnitude;
    hide Finite;
    hide BitOr;
    hide Shl;
    hide Value;
    hide Ready;
    hide RootIs;
    hide Radicand;
    hide IsRoot;
    hide Format.Bias;
    RadicandIs(f, a);
    RadicandTop(f, m);
    var aExp: int, aMant: nat := e / 2 + f.Bias(), Shl(f.size, m, f.size - 4 - f.mant);
    ghost var n := aMant;
    var inexact: bool;
    aMant, inexact := SqrtRemHigh(f, aMant);
    RootReady(f, Value(f, a), e, m, n, aMant, inexact);
    if inexact {
      aMant := BitOr(aMant, 1);
    }
    r := NormalizeSf(fcsr, f, false, aExp, aMant, rm, Sqrt(Value(f, a)));
    RootFinite(f, rm, a, old(fcsr.raised), fcsr.raised, r);
  }

  lemma RootFinite(f: Format, rm: Mode, a: nat, before: set<Flag>, after: set<Flag>, r: nat)
    requires f.Valid() && Finite(f, a) && Magnitude(f, a) != 0 && !SignOf(f, a)
    requires Delivers(f, rm, false, Sqrt(Value(f, a)), before, after, r)
    ensures RootIs(f, rm, a, before, after, r)
  {
    hide Value;
    hide Delivers;
    hide SignOf;
    hide Magnitude;
    hide Format.Inf;
  }

  /** The operand with an even exponent: `m * 2^(e - MANT_SIZE)`. */
  function Radicand(f: Format, a: nat): (int, nat)
    requires f.Valid()
  {
    var s := Significand(f, a);
    var e := s.0 - f.Bias();
    if e % 2 != 0 then (e - 1, Shl(f.size, s.1, 1)) else (e, s.1)
  }

  lemma RadicandIs(f: Format, a: nat)
    requires f.Valid() && IsWord(f, a) && Magnitude(f, a) != 0
    ensures var s := Radicand(f, a);
      && s.0 % 2 == 0 && Pow2(f.mant) <= s.1 < 4 * Pow2(f.mant)
      && Value(f, a) == s.1 as real * P2(s.0 - f.mant)
  {
    hide Pow2;
    hide P2;
    hide Value;
    hide Significand;
    hide Magnitude;
    hide Shl;
    hide Format.Bias;
    SignificandIs(f, a);
    var s := Significand(f, a);
    OnePow();
    TopAligned(f, s.1, 1);
    ScaleInto(s.1, 1, s.0 - f.Bias() - f.mant, Value(f, a));
  }

  lemma RadicandTop(f: Format, m: nat)
    requires f.Valid() && Pow2(f.mant) <= m < 4 * Pow2(f.mant)
    ensures f.size - 4 - f.mant >= 0
    ensures Shl(f.size, m, f.size - 4 - f.mant) == m * Pow2(f.size - 4 - f.mant)
    ensures Pow2(f.size - 4) <= m * Pow2(f.size - 4 - f.mant) < Pow2(f.size - 2)
    ensures 0 < m * Pow2(f.size - 4 - f.mant) < Pow2(f.size)
  {
    hide Pow2;
    hide Shl;
    var t := f.size - 4 - f.mant;
    Pow2Add(2, f.mant);
    OnePow();
    Pow2Add(f.mant, t);
    Pow2Add(f.mant + 2, t);
    MulOrder(Pow2(f.mant), m, Pow2(t));
    MulOrder(m, Pow2(f.mant + 2), Pow2(t));
    Pow2Mono(f.size - 2, f.size);
    ShlSmall(f.size, m, t);
  }

  /** The integer root of the scaled radicand, with its inexact bit, is ready to round. */
  lemma RootReady(f: Format, v: real, e: int, m: nat, n: nat, s: nat, inexact: bool)
    requires f.Valid() && e % 2 == 0 && v == m as real * P2(e - f.mant)
    requires n == m * Pow2(f.size - 4 - f.mant) && Pow2(f.size - 4) <= n < Pow2(f.size - 2)
    requires IsRoot(s, n * Pow2(f.size)) && (inexact <==> s * s != n * Pow2(f.size))
    ensures var k := BitOr(s, B2N(inexact));
      && k < Pow2(f.size - 1)
      && Ready(f, Sqrt(v), e / 2 + f.Bias(), k)
      && BitOr(s, 0) == s
  {
    hide Pow2;
    hide P2;
    hide Side;
    hide Agrees;
    hide Equals;
    hide BitOr;
    hide Format.Bias;
    var a := n * Pow2(f.size);
    var g := e / 2 - (f.size - 2);
    assert Unit(f, e / 2 + f.Bias()) == g;
    RadicandScaled(f, v, e, m, n);
    RootSize(f, n, s);
    RootSide(v, a, s, g);
    RootSide(v, a, s + 1, g);
    AgreesFloor(Sqrt(v), s, inexact, g);
    StickyBit(s, inexact);
    BitOrZero(s);
  }

  lemma RadicandScaled(f: Format, v: real, e: int, m: nat, n: nat)
    requires f.Valid() && e % 2 == 0 && v == m as real * P2(e - f.mant)
    requires n == m * Pow2(f.size - 4 - f.mant)
    ensures v == (n * Pow2(f.size)) as real * P2(2 * (e / 2 - (f.size - 2)))
  {
    hide Pow2;
    hide P2;
    ScaleInto(m, f.size - 4 - f.mant, e - f.mant, v);
    ScaleInto(n, f.size, e - f.mant - (f.size - 4 - f.mant), v);
  }

  /** Comparing a square root with `c * 2^g` compares squares. */
  lemma RootSide(v: real, a: nat, c: nat, g: int)
    requires v == a as real * P2(2 * g)
    ensures Side(Sqrt(v), c, g) == Sgn(a - c * c)
  {
    hide P2;
    var r := c as real * P2(g);
    ProductScaled(r, r, c, c, g, g);
    RealOrder(0.0, c as real, P2(g));
    CmpScaled(a, c * c, P2(2 * g), v, r * r);
  }

  lemma RootSize(f: Format, n: nat, s: nat)
    requires f.Valid() && Pow2(f.size - 4) <= n < Pow2(f.size - 2) && IsRoot(s, n * Pow2(f.size))
    ensures Pow2(f.size - 2) <= s < Pow2(f.size - 1)
    ensures s % 2 == 0 ==> s + 1 < Pow2(f.size - 1)
    ensures Pow2(f.mant + 2) <= s
  {
    hide Pow2;
    hide IsRoot;
    Pow2Mono(f.mant + 2, f.size - 2);
    PowSteps(f.size);
    RootBetween(n, s, Pow2(f.size - 4), Pow2(f.size));
  }

  lemma PowSteps(w: nat)
    requires w >= 4
    ensures Pow2(w) == 16 * Pow2(w - 4)
    ensures Pow2(w - 1) == 8 * Pow2(w - 4)
    ensures Pow2(w - 2) == 4 * Pow2(w - 4)
  {
    hide Pow2;
    HalvePow(w);
    HalvePow(w - 1);
    HalvePow(w - 2);
    HalvePow(w - 3);
  }

  lemma RootBetween(n: nat, s: nat, k: nat, p: nat)
    requires k >= 1 && p == 16 * k && k <= n < 4 * k && IsRoot(s, n * p)
    ensures 4 * k <= s < 8 * k
  {
    MulOrder(k, n, p);
    MulOrder(n, 4 * k, p);
    assert k * p == (4 * k) * (4 * k);
    assert (4 * k) * p == (8 * k) * (8 * k);
    if s < 4 * k {
      SquareMono(s + 1, 4 * k);
    }
    if s >= 8 * k {
      SquareMono(8 * k, s);
    }
  }
}
