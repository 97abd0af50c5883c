/** Reading operands: classes, values and normalised significands
    (softfp_template.h:215-231, 298-304, 380-393). */
module Operand {
  import opened Bits
  import opened Ieee
  import opened Sticky
  import opened SoftFpRound

  // ---------- classes of encodings ----------

  predicate Finite(f: Format, a: nat)
    requires f.Valid()
  {
    Magnitude(f, a) < f.Inf()
  }

  predicate Infinite(f: Format, a: nat)
    requires f.Valid()
  {
    Magnitude(f, a) == f.Inf()
  }

  predicate NaN(f: Format, a: nat)
    requires f.Valid()
  {
    Magnitude(f, a) > f.Inf()
  }

  /** A NaN whose quiet bit is clear. */
  predicate Signalling(f: Format, a: nat)
    requires f.Valid()
  {
    f.Inf() < Magnitude(f, a) < f.Inf() + Pow2(f.mant - 1)
  }

  /** isnan_sf. */
  predicate IsNanSf(f: Format, a: nat)
    requires f.Valid()
  {
    ExpOf(f, a) == f.ExpMask() && MantOf(f, a) != 0
  }

  /** issignan_sf: the exponent field together with the quiet bit. */
  predicate IsSigNanSf(f: Format, a: nat)
    requires f.Valid()
  {
    Low(Shr(a, f.mant - 1), f.exp + 1) == 2 * f.ExpMask() && MantOf(f, a) != 0
  }

  lemma ClassesByFields(f: Format, a: nat)
    requires f.Valid() && IsWord(f, a)
    ensures IsNanSf(f, a) <==> NaN(f, a)
    ensures IsSigNanSf(f, a) <==> Signalling(f, a)
    ensures Finite(f, a) <==> ExpOf(f, a) != f.ExpMask()
    ensures Infinite(f, a) <==> ExpOf(f, a) == f.ExpMask() && MantOf(f, a) == 0
    ensures Magnitude(f, a) == 0 <==> ExpOf(f, a) == 0 && MantOf(f, a) == 0
  {
    hide Pow2;
    hide Shr;
    hide Low;
    FieldsOf(f, a);
    InfAtLeast(f);
    var e, m, p, h := ExpOf(f, a), MantOf(f, a), Pow2(f.mant), Pow2(f.mant - 1);
    Pow2Add(1, f.mant - 1);
    OnePow();
    MulOrder(e, f.ExpMask(), p);
    MulOrder(e + 1, f.ExpMask(), p);
    Distribute(e, 1, p);
    if e > 0 {
      MulOrder(1, e, p);
    }
    QuietField(f, a);
  }

  /** The field issignan_sf extracts is twice the exponent plus the quiet bit. */
  lemma QuietField(f: Format, a: nat)
    requires f.Valid() && IsWord(f, a)
    ensures var h := Pow2(f.mant - 1);
      Low(Shr(a, f.mant - 1), f.exp + 1) == 2 * ExpOf(f, a) + B2N(MantOf(f, a) >= h)
  {
    hide Pow2;
    Pow2Add(1, f.mant - 1);
    Pow2Add(1, f.exp);
    OnePow();
    QuietSplit(a, Pow2(f.mant - 1), Pow2(f.exp));
  }

  lemma QuietSplit(a: nat, h: nat, c: nat)
    requires h >= 1 && c >= 1
    ensures Rem(Quot(a, h), 2 * c) == 2 * Rem(Quot(a, 2 * h), c) + B2N(a % (2 * h) >= h)
  {
    var q, m := a / (2 * h), a % (2 * h);
    DivMod(a, 2 * h);
    DivNonneg(a, 2 * h);
    var b := B2N(m >= h);
    DivUnique(a, h, 2 * q + b, m - b * h);
    DivMod(q, c);
    DivNonneg(q, c);
    DivUnique(2 * q + b, 2 * c, q / c, 2 * (q % c) + b);
  }

  // ---------- values ----------

  /** The magnitude of a finite number. */
  ghost function Value(f: Format, a: nat): real
    requires f.Valid()
  {
    Val(f, false, Magnitude(f, a))
  }

  ghost function Signed(f: Format, a: nat): real
    requires f.Valid()
  {
    if SignOf(f, a) then -Value(f, a) else Value(f, a)
  }

  /** The significand as an integer with the implicit bit, and the exponent field it counts for. */
  function RawMant(f: Format, a: nat): nat {
    if ExpOf(f, a) == 0 then MantOf(f, a) else MantOf(f, a) + Pow2(f.mant)
  }

  function RawExp(f: Format, a: nat): (e: nat)
    ensures e >= 1
  {
    if ExpOf(f, a) == 0 then 1 else ExpOf(f, a)
  }

  lemma RawFields(f: Format, a: nat)
    requires f.Valid() && IsWord(f, a)
    ensures (RawExp(f, a) - 1) * Pow2(f.mant) + RawMant(f, a) == Magnitude(f, a)
    ensures RawMant(f, a) < 2 * Pow2(f.mant)
    ensures RawMant(f, a) >= Pow2(f.mant) || RawExp(f, a) == 1
    ensures RawMant(f, a) == 0 <==> Magnitude(f, a) == 0
    ensures BitOr(MantOf(f, a), Pow2(f.mant)) == MantOf(f, a) + Pow2(f.mant)
  {
    hide Pow2;
    hide Shr;
    hide Low;
    hide BitOr;
    FieldsOf(f, a);
    ClassesByFields(f, a);
    var p := Pow2(f.mant);
    Distribute(ExpOf(f, a), 1, p);
    MulMod(1, p);
    BitOrDisjoint(p, MantOf(f, a), f.mant);
  }

  lemma RawRange(f: Format, a: nat)
    requires f.Valid() && IsWord(f, a)
    ensures RawMant(f, a) < 2 * Pow2(f.mant)
    ensures RawMant(f, a) >= Pow2(f.mant) || RawExp(f, a) == 1
  {
    hide Pow2;
    hide RawExp;
    hide RawMant;
    hide Magnitude;
    RawFields(f, a);
  }

  lemma RawValue(f: Format, a: nat)
    requires f.Valid() && IsWord(f, a)
    ensures Value(f, a) == RawMant(f, a) as real * P2(RawExp(f, a) - f.Bias() - f.mant)
  {
    hide Pow2;
    hide P2;
    hide Value;
    hide Magnitude;
    hide RawMant;
    hide Format.Bias;
    hide RawExp;
    hide BitOr;
    RawRange(f, a);
    RawSum(f, a);
    GridValue(f, a, RawExp(f, a), RawMant(f, a));
  }

  lemma RawSum(f: Format, a: nat)
    requires f.Valid() && IsWord(f, a)
    ensures (RawExp(f, a) - 1) * Pow2(f.mant) + RawMant(f, a) == Magnitude(f, a)
  {
    hide *;
    RawFields(f, a);
  }

  lemma GridValue(f: Format, a: nat, e: nat, q: nat)
    requires f.Valid() && e >= 1 && q < 2 * Pow2(f.mant) && (q >= Pow2(f.mant) || e == 1)
    requires (e - 1) * Pow2(f.mant) + q == Magnitude(f, a)
    ensures Value(f, a) == q as real * P2(e - f.Bias() - f.mant)
  {
    hide Pow2;
    hide P2;
    hide Val;
    hide Magnitude;
    hide Format.Bias;
    ValGridAt(f, false, e, q, Magnitude(f, a));
  }

  lemma ValueZero(f: Format, a: nat)
    requires f.Valid()
    ensures Value(f, a) >= 0.0
    ensures Value(f, a) == 0.0 <==> Magnitude(f, a) == 0
  {
    hide Val;
    hide Magnitude;
    ValMono(f, false, 0, Magnitude(f, a));
    ZeroVal(f);
  }

  lemma ZeroVal(f: Format)
    requires f.Valid()
    ensures Val(f, false, 0) == 0.0
  {
  }

  /** normalize_subnormal_sf. */
  function NormalizeSubnormal(f: Format, mant: nat): (int, nat)
    requires f.Valid() && mant < Pow2(f.size)
  {
    var shift := f.mant - (f.size - 1 - Clz(f.size, mant));
    if shift >= 0 then (1 - shift, Shl(f.size, mant, shift)) else (1, mant)
  }

  /** The operand as `mant * 2^(exp - bias - MANT_SIZE)` with the top bit of `mant` at
      MANT_SIZE, as every multiplicative operation first brings it. */
  function Significand(f: Format, a: nat): (int, nat)
    requires f.Valid()
  {
    if ExpOf(f, a) == 0 then
      (assert MantOf(f, a) < Pow2(f.size) by { Pow2Mono(f.mant, f.size); }
       NormalizeSubnormal(f, MantOf(f, a)))
    else (ExpOf(f, a), BitOr(MantOf(f, a), Pow2(f.mant)))
  }

  lemma SignificandIs(f: Format, a: nat)
    requires f.Valid() && IsWord(f, a) && Magnitude(f, a) != 0
    ensures var s := Significand(f, a);
      && Pow2(f.mant) <= s.1 < 2 * Pow2(f.mant)
      && Value(f, a) == s.1 as real * P2(s.0 - f.Bias() - f.mant)
  {
    hide Pow2;
    hide P2;
    hide Shr;
    hide Low;
    hide Clz;
    hide Shl;
    hide Format.Bias;
    hide BitOr;
    hide Value;
    hide NormalizeSubnormal;
    RawFields(f, a);
    RawValue(f, a);
    FieldsOf(f, a);
    if ExpOf(f, a) == 0 {
      SubnormalIs(f, MantOf(f, a), Value(f, a));
    }
  }

  lemma SubnormalIs(f: Format, m: nat, v: real)
    requires f.Valid() && 0 < m < Pow2(f.mant)
    requires v == m as real * P2(1 - f.Bias() - f.mant)
    ensures m < Pow2(f.size)
    ensures var s := NormalizeSubnormal(f, m);
      && Pow2(f.mant) <= s.1 < 2 * Pow2(f.mant)
      && v == s.1 as real * P2(s.0 - f.Bias() - f.mant)
  {
    hide Pow2;
    hide P2;
    hide Clz;
    hide Shl;
    hide Format.Bias;
    SubnormalTop(f, m);
    var t := f.mant - (f.size - 1 - Clz(f.size, m));
    ScaleInto(m, t, 1 - f.Bias() - f.mant, v);
  }

  /** Shifting the significand up by `t` and lowering the exponent leaves the value alone. */
  lemma ScaleInto(m: nat, t: nat, e: int, v: real)
    requires v == m as real * P2(e)
    ensures v == (m * Pow2(t)) as real * P2(e - t)
  {
    hide Pow2;
    hide P2;
    P2AddNat(e - t, t);
    CastMul(m, Pow2(t), P2(e - t), P2(e));
  }

  lemma SubnormalTop(f: Format, m: nat)
    requires f.Valid() && 0 < m < Pow2(f.mant)
    ensures m < Pow2(f.size)
    ensures var t := f.mant - (f.size - 1 - Clz(f.size, m));
      t >= 0 && Pow2(f.mant) <= m * Pow2(t) < 2 * Pow2(f.mant) && Shl(f.size, m, t) == m * Pow2(t)
  {
    hide Pow2;
    hide Clz;
    hide Shl;
    Pow2Mono(f.mant, f.size);
    ClzTop(f.size, m);
    SubnormalShift(f, m, f.size - Clz(f.size, m));
  }

  lemma SubnormalShift(f: Format, m: nat, l: nat)
    requires f.Valid() && 0 < m < Pow2(f.mant) && l >= 1 && Pow2(l - 1) <= m < Pow2(l)
    ensures l <= f.mant
    ensures var t := f.mant + 1 - l;
      Pow2(f.mant) <= m * Pow2(t) < 2 * Pow2(f.mant) && Shl(f.size, m, t) == m * Pow2(t)
  {
    hide Pow2;
    hide Shl;
    Pow2Mono(f.mant, l - 1);
    TopShift(f.mant + 1, l, m);
    Pow2Add(1, f.mant);
    OnePow();
    Pow2Mono(f.mant + 1, f.size);
    ShlSmall(f.size, m, f.mant + 1 - l);
  }
}
