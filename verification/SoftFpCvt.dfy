/** Conversions between float formats (softfp_template.h:947-1086). */
module SoftFpCvt {
  import opened Bits
  import opened Ieee
  import opened Sticky
  import opened SoftFpRound
  import opened Operand
  import opened SoftFpMul

  /** `f` is so much wider than `g` that every finite `g` number is normal in `f`, and a
      subnormal `f` number is below half the least `g` number. */
  ghost predicate Wider(g: Format, f: Format)
    requires g.Valid() && f.Valid()
  {
    f.mant >= g.size - 2 && f.Bias() > g.Bias() + g.mant
  }

  lemma WiderFormats()
    ensures SF32.Valid() && SF64.Valid() && SF128.Valid()
    ensures Wider(SF32, SF64) && Wider(SF32, SF128) && Wider(SF64, SF128)
  {
    hide Pow2;
    Pow2Values();
    Pow2Mono(10, 14);
    HalvePow(14);
  }

  lemma Pow2Values()
    ensures Pow2(7) == 128 && Pow2(10) == 1024 && Pow2(14) == 16384
  {
    assert Pow2(4) == 16;
    assert Pow2(7) == 128;
    assert Pow2(10) == 1024;
    assert Pow2(14) == 16384;
  }

  // ---------- widening ----------

  ghost predicate WidenIs(g: Format, f: Format, a: nat, before: set<Flag>, after: set<Flag>, r: nat)
    requires g.Valid() && f.Valid()
  {
    if NaN(g, a) then NaNResult(f, Signalling(g, a), before, after, r)
    else
      && after == before
      && IsWord(f, r) && SignOf(f, r) == SignOf(g, a)
      && (Infinite(g, a) ==> Infinite(f, r))
      && (Finite(g, a) ==> Finite(f, r) && Value(f, r) == Value(g, a))
  }

  /** cvt_sf32_sf and cvt_sf64_sf: widening keeps the exact value and raises nothing. */
  method WidenSf(fcsr: Fcsr, g: Format, f: Format, a: nat) returns (r: nat)
    requires g.Valid() && f.Valid() && Wider(g, f) && IsWord(g, a)
    modifies fcsr
    ensures WidenIs(g, f, a, old(fcsr.raised), fcsr.raised, r)
  {
    hide Pow2;
    hide SignOf;
    hide Magnitude;
    hide ExpOf;
    hide MantOf;
    hide BitOr;
    hide Shl;
    hide Value;
    hide PackSf;
    hide Encode;
    hide NormalizeSubnormal;
    hide IsSigNanSf;
    hide Format.ExpMask;
    hide Format.Inf;
    hide Format.Bias;
    hide Format.QNaN;
    hide Wider;
    ClassesByFields(g, a);
    FieldsOf(g, a);
    assert fcsr.raised + {} == fcsr.raised;
    var aSign := SignOf(g, a);
    var aExp: int, aMant := ExpOf(g, a), MantOf(g, a);
    PackSpecial(f, aSign);
    SpecialWords(f, aSign);
    InfAtLeast(f);
    if aExp == g.ExpMask() {
      if aMant != 0 {
        if IsSigNanSf(g, a) {
          fcsr.raised := fcsr.raised + {NV};
        }
        return f.QNaN();
      } else {
        return PackSf(f, aSign, f.ExpMask(), 0);
      }
    }
    ValueZero(g, a);
    ValueZero(f, Encode(f, aSign, 0));
    if aExp == 0 {
      if aMant == 0 {
        return PackSf(f, aSign, 0, 0);
      }
      Pow2Mono(g.mant, g.size);
      var s := NormalizeSubnormal(g, aMant);
      aExp, aMant := s.0, s.1;
    }
    WidenPacked(g, f, a);
    // rebias the exponent and align the fields
    aExp := aExp - g.Bias() + f.Bias();
    aMant := Shl(f.size, aMant, f.mant - g.mant);
    r := PackSf(f, aSign, aExp, aMant);
  }

  lemma SpecialWords(f: Format, sign: bool)
    requires f.Valid()
    ensures forall k: nat {:trigger Encode(f, sign, k)} | k <= f.Inf() ::
              var r := Encode(f, sign, k);
              IsWord(f, r) && SignOf(f, r) == sign && Magnitude(f, r) == k
  {
    hide Pow2;
    InfBound(f);
    forall k: nat {:trigger Encode(f, sign, k)} | k <= f.Inf()
      ensures var r := Encode(f, sign, k);
        IsWord(f, r) && SignOf(f, r) == sign && Magnitude(f, r) == k
    {
      EncodeIs(f, sign, k);
    }
  }

  /** The mantissa handed to `pack_sf`: normalised, with or without its implicit bit. */
  function WidenMant(g: Format, a: nat): nat
    requires g.Valid()
  {
    if ExpOf(g, a) == 0 then Significand(g, a).1 else MantOf(g, a)
  }

  lemma WidenPacked(g: Format, f: Format, a: nat)
    requires g.Valid() && f.Valid() && Wider(g, f) && IsWord(g, a) && Finite(g, a) && Magnitude(g, a) != 0
    ensures f.mant >= g.mant
    ensures var e := Significand(g, a).0 - g.Bias() + f.Bias();
      var m := Shl(f.size, WidenMant(g, a), f.mant - g.mant);
      && e >= 0
      && var r := PackSf(f, SignOf(g, a), e, m);
      && IsWord(f, r) && SignOf(f, r) == SignOf(g, a)
      && Finite(f, r) && Value(f, r) == Value(g, a)
  {
    hide Pow2;
    hide P2;
    hide Shl;
    hide Val;
    hide PackSf;
    hide Encode;
    hide SignOf;
    hide Magnitude;
    hide Significand;
    hide WidenMant;
    hide Format.ExpMask;
    hide Format.Bias;
    hide Finite;
    var s := Significand(g, a);
    var d := f.mant - g.mant;
    var e := s.0 - g.Bias() + f.Bias();
    var m := WidenMant(g, a);
    hide Value;
    SignificandIs(g, a);
    ExponentRange(g, f, a);
    MantissaOf(g, a);
    WidenFields(g, f, s.1, m);
    PackIs(f, SignOf(g, a), e, m * Pow2(d));
    ScaleInto(s.1, d, s.0 - g.Bias() - g.mant, Value(g, a));
    NormalWord(f, SignOf(g, a), e, s.1 * Pow2(d));
    assert e - f.Bias() - f.mant == s.0 - g.Bias() - g.mant - d;
  }

  /** Packing a normal significand: the word, its class and its value. */
  lemma NormalWord(f: Format, sign: bool, e: int, s: nat)
    requires f.Valid() && 1 <= e < f.ExpMask() && Pow2(f.mant) <= s < 2 * Pow2(f.mant)
    ensures e * Pow2(f.mant) + (s - Pow2(f.mant)) >= 0
    ensures var r := Encode(f, sign, e * Pow2(f.mant) + (s - Pow2(f.mant)));
      && IsWord(f, r) && SignOf(f, r) == sign && Finite(f, r)
      && Value(f, r) == s as real * P2(e - f.Bias() - f.mant)
  {
    hide Pow2;
    hide P2;
    hide Val;
    hide Encode;
    hide SignOf;
    hide Magnitude;
    hide Format.Bias;
    hide Format.ExpMask;
    var p := Pow2(f.mant);
    var k := e * p + (s - p);
    CarryInto(p, e, s - p, f.ExpMask());
    Distribute(e, 1, p);
    MulOrder(1, e, p);
    InfBound(f);
    ValGridAt(f, false, e, s, k);
    EncodeIs(f, sign, k);
  }

  lemma ExponentRange(g: Format, f: Format, a: nat)
    requires g.Valid() && f.Valid() && Wider(g, f) && IsWord(g, a) && Finite(g, a) && Magnitude(g, a) != 0
    ensures 1 <= Significand(g, a).0 - g.Bias() + f.Bias() < f.ExpMask()
  {
    hide Pow2;
    hide Shl;
    hide Shr;
    hide Low;
    hide Clz;
    FieldsOf(g, a);
    ClassesByFields(g, a);
    HalvePow(g.exp);
    HalvePow(f.exp);
    if ExpOf(g, a) == 0 {
      SubnormalExp(g, MantOf(g, a));
    }
  }

  lemma SubnormalExp(g: Format, m: nat)
    requires g.Valid() && 0 < m < Pow2(g.mant)
    ensures m < Pow2(g.size) && 1 - g.mant <= NormalizeSubnormal(g, m).0 <= 0
  {
    hide Pow2;
    hide Shl;
    hide Clz;
    Pow2Mono(g.mant, g.size);
    ClzTop(g.size, m);
    Pow2Mono(g.mant, g.size - 1 - Clz(g.size, m));
  }

  lemma MantissaOf(g: Format, a: nat)
    requires g.Valid() && IsWord(g, a) && Magnitude(g, a) != 0
    ensures var m, s := WidenMant(g, a), Significand(g, a).1;
      m == s || m == s - Pow2(g.mant)
  {
    hide Pow2;
    hide Shl;
    hide Shr;
    hide Low;
    hide BitOr;
    hide NormalizeSubnormal;
    RawFields(g, a);
  }

  /** Masking drops the implicit bit exactly when it is there. */
  lemma WidenFields(g: Format, f: Format, s: nat, m: nat)
    requires g.Valid() && f.Valid() && f.mant >= g.mant && Pow2(g.mant) <= s < 2 * Pow2(g.mant)
    requires m == s || m == s - Pow2(g.mant)
    ensures var d := f.mant - g.mant;
      && Shl(f.size, m, d) == m * Pow2(d)
      && (m * Pow2(d)) % Pow2(f.mant) == s * Pow2(d) - Pow2(f.mant)
      && Pow2(f.mant) <= s * Pow2(d) < 2 * Pow2(f.mant)
  {
    hide Pow2;
    hide Shl;
    var d := f.mant - g.mant;
    var p := Pow2(g.mant);
    Pow2Add(g.mant, d);
    MulOrder(p, s, Pow2(d));
    MulOrder(s, 2 * p, Pow2(d));
    MulAssoc(2, p, Pow2(d));
    Distribute(s, p, Pow2(d));
    if m == s {
      DivUnique(m * Pow2(d), Pow2(f.mant), 1, s * Pow2(d) - Pow2(f.mant));
    } else {
      ModSmall(m * Pow2(d), Pow2(f.mant));
    }
    MulOrder(m, s, Pow2(d));
    HalvePow(f.mant + 1);
    Pow2Mono(f.mant + 1, f.size);
    ShlSmall(f.size, m, d);
  }

  // ---------- narrowing ----------

  ghost predicate NarrowIs(f: Format, g: Format, rm: Mode, a: nat, before: set<Flag>, after: set<Flag>, r: nat)
    requires g.Valid() && f.Valid()
  {
    if NaN(f, a) then NaNResult(g, Signalling(f, a), before, after, r)
    else if Infinite(f, a) then r == Encode(g, SignOf(f, a), g.Inf()) && after == before
    else Delivers(g, rm, SignOf(f, a), Num(Value(f, a)), before, after, r)
  }

  /** cvt_sf64_sf32 and its 128-bit companions. The code discards the normalised mantissa of
      a subnormal operand and keeps only its exponent; the result is correct all the same. */
  method NarrowSf(fcsr: Fcsr, f: Format, g: Format, a: nat, rm: Mode) returns (r: nat)
    requires g.Valid() && f.Valid() && Wider(g, f) && IsWord(f, a)
    modifies fcsr
    ensures NarrowIs(f, g, rm, a, old(fcsr.raised), fcsr.raised, r)
  {
    hide Pow2;
    hide Delivers;
    hide SignOf;
    hide Magnitude;
    hide ExpOf;
    hide MantOf;
    hide BitOr;
    hide Jam;
    hide Value;
    hide Ready;
    hide PackSf;
    hide Encode;
    hide NormalizeSubnormal;
    hide IsSigNanSf;
    hide Format.ExpMask;
    hide Format.Inf;
    hide Format.Bias;
    hide Format.QNaN;
    hide Wider;
    hide Scaled;
    ClassesByFields(f, a);
    FieldsOf(f, a);
    assert fcsr.raised + {} == fcsr.raised;
    ghost var before := fcsr.raised;
    var aSign := SignOf(f, a);
    var aExp: int, aMant := ExpOf(f, a), MantOf(f, a);
    PackSpecial(g, aSign);
    if aExp == f.ExpMask() {
      if aMant != 0 {
        if IsSigNanSf(f, a) {
          fcsr.raised := fcsr.raised + {NV};
        }
        return g.QNaN();
      } else {
        return PackSf(g, aSign, g.ExpMask(), 0);
      }
    }
    Pow2Mono(f.mant, f.size);
    if aExp == 0 {
      if aMant == 0 {
        NarrowZero(f, g, rm, a, before);
        return PackSf(g, aSign, 0, 0);
      }
      aExp := NormalizeSubnormal(f, aMant).0;
    } else {
      aMant := BitOr(aMant, Pow2(f.mant));
    }
    // rebias the exponent and align the fields
    ghost var e, m := aExp, aMant;
    NarrowOperand(f, g, a, e, m);
    aExp := aExp - f.Bias() + g.Bias();
    aMant := RShiftRnd(f, aMant, f.mant - (g.size - 2));
    ghost var x := if ExpOf(f, a) == 0 then Num(Scaled(g, aMant, aExp)) else Num(Value(f, a));
    if ExpOf(f, a) == 0 {
      MakeReady(g, aExp, aMant);
    }
    r := NormalizeSf(fcsr, g, aSign, aExp, aMant, rm, x);
    if ExpOf(f, a) == 0 {
      NarrowTransfer(f, g, rm, a, e, m, before, fcsr.raised, r);
    }
  }

  /** The value of internal mantissa `m` at exponent `exp`. */
  ghost function Scaled(g: Format, m: nat, exp: int): real
    requires g.Valid()
  {
    m as real * P2(Unit(g, exp))
  }

  lemma MakeReady(g: Format, exp: int, m: nat)
    requires g.Valid()
    ensures Ready(g, Num(Scaled(g, m, exp)), exp, m)
  {
    hide P2;
    EqualsNum(Scaled(g, m, exp), m, Unit(g, exp));
  }

  lemma NarrowZero(f: Format, g: Format, rm: Mode, a: nat, before: set<Flag>)
    requires g.Valid() && f.Valid() && Magnitude(f, a) == 0
    ensures Delivers(g, rm, SignOf(f, a), Num(Value(f, a)), before, before, Encode(g, SignOf(f, a), 0))
  {
    hide Val;
    hide Delivers;
    ZeroVal(f);
    ZeroVal(g);
    InfAtLeast(g);
    ExactDelivers(g, rm, SignOf(f, a), 0, before);
  }

  /** The mantissa fits, and for a normal operand it is ready to round. */
  lemma NarrowOperand(f: Format, g: Format, a: nat, e: int, m: nat)
    requires g.Valid() && f.Valid() && Wider(g, f) && IsWord(f, a) && Magnitude(f, a) != 0
    requires e == Significand(f, a).0
    requires m == if ExpOf(f, a) == 0 then MantOf(f, a) else Significand(f, a).1
    ensures f.mant >= g.size - 2 && IsWord(f, m)
    ensures var k := Jam(m, f.mant - (g.size - 2));
      && k < Pow2(g.size - 1)
      && (ExpOf(f, a) != 0 ==> Ready(g, Num(Value(f, a)), e - f.Bias() + g.Bias(), k))
  {
    hide Pow2;
    hide Jam;
    hide Value;
    hide Significand;
    hide ExpOf;
    hide MantOf;
    hide Ready;
    hide Magnitude;
    hide Format.Bias;
    SignificandIs(f, a);
    FieldsOf(f, a);
    HalvePow(f.mant + 1);
    Pow2Mono(f.mant + 1, f.size);
    NarrowBelow(f, g, m);
    if ExpOf(f, a) != 0 {
      NarrowReady(f, g, Value(f, a), e, m);
    }
  }

  lemma NarrowBelow(f: Format, g: Format, m: nat)
    requires g.Valid() && f.Valid() && f.mant >= g.size - 2 && m < 2 * Pow2(f.mant)
    ensures Jam(m, f.mant - (g.size - 2)) < Pow2(g.size - 1)
    ensures m < Pow2(f.mant) ==> Jam(m, f.mant - (g.size - 2)) <= Pow2(g.size - 2)
    ensures m > 0 ==> Jam(m, f.mant - (g.size - 2)) > 0
  {
    hide Pow2;
    hide JamBy;
    var d := f.mant - (g.size - 2);
    Pow2Add(g.size - 2, d);
    HalvePow(g.size - 1);
    JamBelow(m, Pow2(d), Pow2(g.size - 2));
    JamBounds(m, d);
  }

  lemma JamBelow(m: nat, s: nat, h: nat)
    requires s >= 1 && m < 2 * (h * s)
    ensures JamBy(m, s) < 2 * h
    ensures m < h * s ==> JamBy(m, s) <= h
  {
    hide BitOr;
    DivMod(m, s);
    var q := Quot(m, s);
    MulOrder(2 * h, q, s);
    MulOrder(h, q, s);
    MulAssoc(2, h, s);
    StickyBit(q, Rem(m, s) != 0);
  }

  lemma NarrowReady(f: Format, g: Format, v: real, e: int, m: nat)
    requires g.Valid() && f.Valid() && f.mant >= g.size - 2 && Pow2(f.mant) <= m < 2 * Pow2(f.mant)
    requires v == m as real * P2(e - f.Bias() - f.mant)
    ensures var k := Jam(m, f.mant - (g.size - 2));
      && Pow2(g.size - 2) <= k < Pow2(g.size - 1)
      && Ready(g, Num(v), e - f.Bias() + g.Bias(), k)
  {
    hide Pow2;
    hide P2;
    hide Jam;
    hide Equals;
    hide Agrees;
    hide Format.Bias;
    var d := f.mant - (g.size - 2);
    var u := e - f.Bias() - f.mant;
    assert Unit(g, e - f.Bias() + g.Bias()) == u + d;
    HalvePow(f.mant + 1);
    JamBetween(d, m, g.size - 2, g.size - 1);
    EqualsNum(v, m, u);
    EqualsAgrees(Num(v), m, u);
    AgreesCoarser(Num(v), m, 0, u, 1 + d);
    AgreesJam(Num(v), m, 1, u + 1 + d, d);
    Pow2Mono(g.mant + 2, g.size - 2);
  }

  /** Below half the least subnormal all values round alike, so the wrong mantissa of a
      subnormal operand does no harm. */
  lemma NarrowTransfer(f: Format, g: Format, rm: Mode, a: nat, e: int, m: nat,
                       before: set<Flag>, after: set<Flag>, r: nat)
    requires g.Valid() && f.Valid() && Wider(g, f) && IsWord(f, a) && Magnitude(f, a) != 0 && ExpOf(f, a) == 0
    requires e == Significand(f, a).0 && m == MantOf(f, a)
    requires var k, exp := Jam(m, f.mant - (g.size - 2)), e - f.Bias() + g.Bias();
      Delivers(g, rm, SignOf(f, a), Num(Scaled(g, k, exp)), before, after, r)
    ensures Delivers(g, rm, SignOf(f, a), Num(Value(f, a)), before, after, r)
  {
    hide Pow2;
    hide P2;
    hide Val;
    hide Jam;
    hide Value;
    hide Significand;
    hide MantOf;
    hide Delivers;
    hide Tiny;
    hide Scaled;
    hide SignOf;
    hide Magnitude;
    hide Format.Bias;
    var d := f.mant - (g.size - 2);
    var k, exp := Jam(m, d), e - f.Bias() + g.Bias();
    FieldsOf(f, a);
    SubnormalOperand(f, a);
    NarrowBelow(f, g, m);
    SmallRounded(g, rm, SignOf(f, a), k, exp);
    SubnormalTiny(f, g, rm, a);
    SubnormalBelow(f, g, a);
    SameBelowHalf(g, rm, SignOf(f, a), Scaled(g, k, exp), Value(f, a), before, after, r);
  }

  /** The value the code rounds in place of a subnormal operand. */
  lemma SmallRounded(g: Format, rm: Mode, sign: bool, k: nat, exp: int)
    requires g.Valid() && 0 < k <= Pow2(g.size - 2) && exp < 0 - g.mant
    ensures var x := Scaled(g, k, exp);
      0.0 < x < P2(HalfLeast(g)) && Tiny(g, rm, sign, Num(x))
  {
    hide Pow2;
    hide P2;
    hide Tiny;
    hide Format.Bias;
    P2AddNat(Unit(g, exp), g.size - 2);
    CastBounds(k, Pow2(g.size - 2), P2(Unit(g, exp)), Scaled(g, k, exp), P2(exp - g.Bias()));
    P2Below(exp - g.Bias(), HalfLeast(g));
    Pow2Mono(g.size - 2, g.size - 1);
    HalvePow(g.size - 1);
    TinyExact(g, rm, sign, Scaled(g, k, exp), exp, k);
  }

  lemma SubnormalTiny(f: Format, g: Format, rm: Mode, a: nat)
    requires g.Valid() && f.Valid() && Wider(g, f) && IsWord(f, a) && Magnitude(f, a) != 0 && ExpOf(f, a) == 0
    ensures Tiny(g, rm, SignOf(f, a), Num(Value(f, a)))
  {
    hide Pow2;
    hide P2;
    hide Jam;
    hide Value;
    hide Significand;
    hide MantOf;
    hide ExpOf;
    hide Ready;
    hide Tiny;
    hide SignOf;
    hide Magnitude;
    hide Format.Bias;
    SubnormalOperand(f, a);
    SignificandIs(f, a);
    var s := Significand(f, a);
    NarrowReady(f, g, Value(f, a), s.0, s.1);
    TinyRounded(g, rm, SignOf(f, a), Num(Value(f, a)), s.0 - f.Bias() + g.Bias(), Jam(s.1, f.mant - (g.size - 2)));
  }

  lemma SubnormalOperand(f: Format, a: nat)
    requires f.Valid() && IsWord(f, a) && Magnitude(f, a) != 0 && ExpOf(f, a) == 0
    ensures 0 < MantOf(f, a) < Pow2(f.mant) && Significand(f, a).0 <= 0
  {
    hide Pow2;
    hide Shr;
    hide Low;
    hide NormalizeSubnormal;
    ClassesByFields(f, a);
    FieldsOf(f, a);
    SubnormalExp(f, MantOf(f, a));
  }

  /** The exponent of half the least subnormal number. */
  function HalfLeast(g: Format): int
    requires g.Valid()
  {
    0 - g.Bias() - g.mant
  }

  lemma LeastMagnitude(g: Format)
    requires g.Valid()
    ensures Val(g, false, 0) == 0.0
    ensures Val(g, false, 1) == P2(1 - g.Bias() - g.mant)
    ensures Val(g, false, 1) == 2.0 * P2(HalfLeast(g))
  {
    hide P2;
    P2Next(HalfLeast(g));
    OnePow();
    Pow2Mono(1, g.mant);
  }

  lemma CastBounds(k: nat, h: nat, u: real, v: real, w: real)
    requires 0 < k <= h && u > 0.0 && v == k as real * u && w == u * h as real
    ensures 0.0 < v <= w
  {
    CastLe(1, k, u);
    CastLe(k, h, u);
  }

  lemma {:induction false} P2Below(a: int, b: int)
    requires a < b
    ensures P2(a) < P2(b)
    decreases b - a
  {
    hide P2;
    P2Next(b - 1);
    if a < b - 1 {
      P2Below(a, b - 1);
    }
  }

  lemma SubnormalBelow(f: Format, g: Format, a: nat)
    requires g.Valid() && f.Valid() && Wider(g, f) && IsWord(f, a) && Magnitude(f, a) != 0 && ExpOf(f, a) == 0
    ensures 0.0 < Value(f, a) < P2(HalfLeast(g))
  {
    hide Pow2;
    hide P2;
    hide Value;
    hide ExpOf;
    hide MantOf;
    hide Magnitude;
    hide Format.Bias;
    RawValue(f, a);
    ValueZero(f, a);
    FieldsOf(f, a);
    var m := MantOf(f, a);
    var u := P2(1 - f.Bias() - f.mant);
    P2AddNat(1 - f.Bias() - f.mant, f.mant);
    P2Mono(1 - f.Bias(), HalfLeast(g));
    BelowProduct(m, Pow2(f.mant), u, Value(f, a), P2(1 - f.Bias()));
  }

  lemma BelowProduct(m: int, n: int, u: real, v: real, w: real)
    requires m < n && u > 0.0 && v == m as real * u && w == u * n as real
    ensures v < w
  {
    CastOrder(m, n, u);
  }

  lemma P2Mono(a: int, b: int)
    requires a <= b
    ensures P2(a) <= P2(b)
  {
    hide P2;
    if a < b {
      P2Below(a, b);
    }
  }

  /** An exact value far below the normal range is tiny. */
  lemma TinyExact(g: Format, rm: Mode, sign: bool, x: real, exp: int, k: nat)
    requires g.Valid() && 0 < k < Pow2(g.size - 1) && exp < 0 && x == Scaled(g, k, exp)
    ensures Tiny(g, rm, sign, Num(x))
  {
    hide Pow2;
    hide P2;
    hide Tiny;
    hide Clz;
    hide Agrees;
    hide Format.Bias;
    EqualsNum(x, k, Unit(g, exp));
    NormalTop(g.size, k);
    var t := Clz(g.size, k) - 1;
    NormalizedAgrees(g, Num(x), exp, k, t);
    TinyIff(g, rm, sign, Num(x), exp - t, k * Pow2(t));
  }

  lemma TinyRounded(g: Format, rm: Mode, sign: bool, x: Exact, exp: int, k: nat)
    requires g.Valid() && Pow2(g.size - 2) <= k < Pow2(g.size - 1) && exp < 0 && Ready(g, x, exp, k)
    ensures Tiny(g, rm, sign, x)
  {
    hide Pow2;
    hide Tiny;
    hide Agrees;
    hide Ready;
    hide Format.Bias;
    OnePow();
    Pow2Mono(0, g.size - 2);
    assert k * Pow2(0) == k;
    NormalizedAgrees(g, x, exp, k, 0);
    TinyIff(g, rm, sign, x, exp, k);
  }

  lemma SameBelowHalf(g: Format, rm: Mode, sign: bool, x: real, v: real,
                      before: set<Flag>, after: set<Flag>, r: nat)
    requires g.Valid() && 0.0 < x < P2(HalfLeast(g)) && 0.0 < v < P2(HalfLeast(g))
    requires Tiny(g, rm, sign, Num(x)) && Tiny(g, rm, sign, Num(v))
    requires Delivers(g, rm, sign, Num(x), before, after, r)
    ensures Delivers(g, rm, sign, Num(v), before, after, r)
  {
    hide Pow2;
    hide P2;
    hide Val;
    hide Tiny;
    hide Encode;
    hide Format.Bias;
    LeastMagnitude(g);
    InfAtLeast(g);
    Pow2Mono(1, g.mant);
    OnePow();
    var u := Val(g, false, 1);
    assert RoundsFrom(g, false, rm, sign, Num(x), 0, B2N(Up(rm, sign, Num(x), 0.0, u, false)));
    assert RoundsFrom(g, false, rm, sign, Num(v), 0, B2N(Up(rm, sign, Num(v), 0.0, u, false)));
    assert Up(rm, sign, Num(x), 0.0, u, false) == Up(rm, sign, Num(v), 0.0, u, false);
    var k := B2N(Up(rm, sign, Num(x), 0.0, u, false));
    var k': nat :| RoundsTo(g, false, rm, sign, Num(x), k')
      && r == Encode(g, sign, Delivered(g, rm, sign, k'))
      && after == before + Raised(g, rm, sign, Num(x), k');
    RoundsToUnique(g, false, rm, sign, Num(x), k, k');
    assert RoundsTo(g, false, rm, sign, Num(v), k);
    assert Raised(g, rm, sign, Num(v), k) == Raised(g, rm, sign, Num(x), k);
  }

  /** Narrowing undoes widening: every number that is not a NaN comes back unchanged, in
      every rounding mode, and no flag is raised on the way. */
  lemma NarrowUndoesWiden(g: Format, f: Format, rm: Mode, a: nat, s0: set<Flag>, s1: set<Flag>, s2: set<Flag>,
                          w: nat, r: nat)
    requires g.Valid() && f.Valid() && IsWord(g, a) && !NaN(g, a)
    requires WidenIs(g, f, a, s0, s1, w) && NarrowIs(f, g, rm, w, s1, s2, r)
    ensures r == a && s2 == s0
  {
    hide Pow2;
    hide Val;
    hide Delivers;
    hide SignOf;
    hide Encode;
    hide Magnitude;
    FieldsOf(g, a);
    if Finite(g, a) {
      ExactDelivers(g, rm, SignOf(g, a), Magnitude(g, a), s1);
      DeliversUnique(g, rm, SignOf(g, a), Num(Value(g, a)), s1, s2, r, s1, a);
    }
  }
}
