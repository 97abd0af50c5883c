/** Conversions between floats and integers (softfp_template_icvt.h). */
module SoftFpInt {
  import opened Bits
  import opened Ieee
  import opened Sticky
  import opened SoftFpRound
  import opened Operand
  import opened SoftFpMul

  // ---------- integers as words ----------

  /** The two's-complement word of `n` bits that stands for `i`. */
  function IntWord(n: nat, i: int): (w: nat)
    ensures w < Pow2(n)
  {
    DivMod(i, Pow2(n));
    i % Pow2(n)
  }

  function IntMin(n: nat, unsigned: bool): int
    requires n >= 1
  {
    if unsigned then 0 else 0 - Pow2(n - 1)
  }

  function IntMax(n: nat, unsigned: bool): int
    requires n >= 1
  {
    if unsigned then Pow2(n) - 1 else Pow2(n - 1) - 1
  }

  /** What a word means as an operand of the conversion. */
  function IntValue(n: nat, unsigned: bool, w: nat): int
    requires n >= 1
  {
    if unsigned || w < Pow2(n - 1) then w else w - Pow2(n)
  }

  lemma IntWordValue(n: nat, unsigned: bool, w: nat)
    requires n >= 1 && w < Pow2(n)
    ensures IntMin(n, unsigned) <= IntValue(n, unsigned, w) <= IntMax(n, unsigned)
    ensures IntWord(n, IntValue(n, unsigned, w)) == w
  {
    hide Pow2;
    HalvePow(n);
    if unsigned || w < Pow2(n - 1) {
      ModSmall(w, Pow2(n));
    } else {
      DivUnique(w - Pow2(n), Pow2(n), -1, w);
    }
  }

  // ---------- rounding to an integer ----------

  /** Magnitude `x` of a number with sign `sign` rounds to the integer `k`. */
  ghost predicate RoundsToInt(rm: Mode, sign: bool, x: Exact, k: nat) {
    || IntFrom(rm, sign, x, k, k)
    || (k > 0 && IntFrom(rm, sign, x, k - 1, k))
  }

  ghost predicate IntFrom(rm: Mode, sign: bool, x: Exact, lo: nat, k: nat) {
    && Between(x, lo as real, (lo + 1) as real)
    && k == lo + B2N(Up(rm, sign, x, lo as real, (lo + 1) as real, lo % 2 != 0))
  }

  lemma RoundsToIntUnique(rm: Mode, sign: bool, x: Exact, j: nat, k: nat)
    requires RoundsToInt(rm, sign, x, j) && RoundsToInt(rm, sign, x, k)
    ensures j == k
  {
    hide Up;
    hide Cmp;
    var a: nat := if IntFrom(rm, sign, x, j, j) then j else j - 1;
    var b: nat := if IntFrom(rm, sign, x, k, k) then k else k - 1;
    IntBracketOrder(x, a, b);
    IntBracketOrder(x, b, a);
    hide Between;
  }

  lemma IntBracketOrder(x: Exact, a: nat, b: nat)
    requires Between(x, a as real, (a + 1) as real) && Between(x, b as real, (b + 1) as real)
    ensures a >= b
  {
    hide Cmp;
    CmpOrder(x, (a + 1) as real, b as real);
  }

  /** An integer rounds to itself. */
  lemma IntegerRounds(rm: Mode, sign: bool, k: nat)
    ensures RoundsToInt(rm, sign, Num(k as real), k)
  {
    assert IntFrom(rm, sign, Num(k as real), k, k);
  }

  /** Rounding a mantissa that agrees with `x` at every half integer. */
  lemma IntRound(f: Format, rm: Mode, sign: bool, x: Exact, m: nat)
    requires f.Valid() && Agrees(x, m, f.Rnd() - 1, -1)
    ensures RoundsToInt(rm, sign, x, RoundMant(f, rm, sign, m))
    ensures Cmp(x, RoundMant(f, rm, sign, m) as real) == 0 <==> Low(m, f.Rnd()) == 0
  {
    hide Pow2;
    hide Cmp;
    hide Side;
    hide Agrees;
    hide RoundMant;
    hide Quot;
    hide Rem;
    var s, half := Pow2(f.Rnd()), Pow2(f.Rnd() - 1);
    var j := f.Rnd() - 1;
    var q, rem := Quot(m, s), Rem(m, s);
    RndSplit(f, m);
    RoundMantIs(f, rm, sign, m);
    UnitScale();
    HalfSteps(x, q, 0, q as real, (q + 1) as real);
    AgreesUse(x, m, j, -1, 2 * q);
    AgreesUse(x, m, j, -1, 2 * q + 1);
    AgreesUse(x, m, j, -1, 2 * q + 2);
    HalfUnits(q, half, rem, m);
    assert IntFrom(rm, sign, x, q, q + B2N(UpBits(rm, sign, q, rem, half)));
  }

  lemma UnitScale()
    ensures P2(0) == 1.0
  {
  }

  // ---------- float to integer ----------

  /** The result is the value rounded to an integer if that fits; otherwise the nearest
      limit, and only the invalid flag. A NaN counts as positive infinity. */
  ghost predicate ToIntIs(f: Format, n: nat, unsigned: bool, rm: Mode, a: nat,
                          before: set<Flag>, after: set<Flag>, r: nat)
    requires f.Valid() && n >= 1
  {
    if Finite(f, a) then
      exists k: nat ::
        && RoundsToInt(rm, SignOf(f, a), Num(Value(f, a)), k)
        && ToIntFrom(n, unsigned, SignOf(f, a), Cmp(Num(Value(f, a)), k as real) == 0, k, before, after, r)
    else
      && r == IntWord(n, if NaN(f, a) || !SignOf(f, a) then IntMax(n, unsigned) else IntMin(n, unsigned))
      && after == before + {NV}
  }

  predicate ToIntFrom(n: nat, unsigned: bool, sign: bool, exact: bool, k: nat,
                      before: set<Flag>, after: set<Flag>, r: nat)
    requires n >= 1
  {
    var v := if sign then -(k as int) else k;
    if IntMin(n, unsigned) <= v <= IntMax(n, unsigned) then
      r == IntWord(n, v) && after == before + (if exact then {} else {NX})
    else
      r == IntWord(n, if sign then IntMin(n, unsigned) else IntMax(n, unsigned)) && after == before + {NV}
  }

  /** `r_max` (softfp_template_icvt.h:59-62). */
  function LimitMagnitude(n: nat, unsigned: bool, sign: bool): nat
    requires n >= 1
  {
    if unsigned then (if sign then 0 else Pow2(n) - 1)
    else Pow2(n - 1) - B2N(!sign)
  }

  /** A magnitude fits when it does not exceed `r_max`; negating it, or returning `r_max`
      itself, gives the word the specification asks for. */
  lemma LimitIs(n: nat, unsigned: bool, sign: bool, k: nat)
    requires n >= 1
    ensures var v := if sign then -(k as int) else k;
      var max := LimitMagnitude(n, unsigned, sign);
      && max < Pow2(n)
      && (IntMin(n, unsigned) <= v <= IntMax(n, unsigned) <==> k <= max)
      && max == IntWord(n, if sign then IntMin(n, unsigned) else IntMax(n, unsigned))
      && (k <= max ==> IntWord(n, v) == if sign then SubWord(n, 0, k) else k)
  {
    hide Pow2;
    HalvePow(n);
    var max := LimitMagnitude(n, unsigned, sign);
    if k <= max {
      ModSmall(k, Pow2(n));
    }
    if sign {
      if unsigned {
        ModSmall(0, Pow2(n));
      } else {
        DivUnique(0 - Pow2(n - 1), Pow2(n), -1, Pow2(n - 1));
      }
    } else {
      ModSmall(max, Pow2(n));
    }
  }

  /** internal_cvt_sf_i: `n` is ICVT_SIZE. The format's exponent range must exceed the
      integer's, as it does for every pair the template is instantiated with. */
  method CvtSfInt(fcsr: Fcsr, f: Format, n: nat, a: nat, rm: Mode, unsigned: bool) returns (r: nat)
    requires f.Valid() && IsWord(f, a) && 1 <= n <= Pow2(f.exp - 1) && f.mant <= f.Bias()
    modifies fcsr
    ensures ToIntIs(f, n, unsigned, rm, a, old(fcsr.raised), fcsr.raised, r)
  {
    hide Pow2;
    hide SignOf;
    hide Magnitude;
    hide ExpOf;
    hide MantOf;
    hide BitOr;
    hide Shl;
    hide Shr;
    hide ToIntIs;
    hide NaN;
    hide Finite;
    hide Infinite;
    hide LimitMagnitude;
    hide RoundsToInt;
    hide SubWord;
    hide Value;
    hide Format.ExpMask;
    hide Format.Bias;
    ClassesByFields(f, a);
    ghost var before := fcsr.raised;
    var aSign := SignOf(f, a);
    var aExp: int, aMant := ExpOf(f, a), MantOf(f, a);
    if aExp == f.ExpMask() && aMant != 0 {
      // a NaN saturates upward
      aSign := false;
    }
    RawOperand(f, a);
    if aExp == 0 {
      aExp := 1;
    } else {
      aMant := BitOr(aMant, Pow2(f.mant));
    }
    aMant := Shl(f.size, aMant, f.Rnd());
    aExp := aExp - f.Bias() - f.mant;
    BiasPositive(f);
    var rMax := LimitMagnitude(n, unsigned, aSign);
    var inexact := false;
    if aExp >= 0 && aExp > n - 1 - f.mant {
      fcsr.raised := fcsr.raised + {NV};
      TooLarge(f, n, unsigned, rm, a, aSign, before);
      return rMax;
    }
    if aExp >= 0 {
      LargeValue(f, n, a);
      r := Shl(n, Shr(aMant, f.Rnd()), aExp);
      IntegerRounds(rm, aSign, r);
    } else {
      SmallValue(f, a);
      r, inexact := RoundFraction(f, aSign, aMant, 0 - aExp, rm, Num(Value(f, a)));
    }
    Saturates(f, n, unsigned, rm, a, aSign, r, inexact, before);
    if r > rMax {
      fcsr.raised := fcsr.raised + {NV};
      return rMax;
    }
    if inexact {
      fcsr.raised := fcsr.raised + {NX};
    }
    if aSign {
      r := SubWord(n, 0, r);
    }
  }

  /** softfp_template_icvt.h:74-103: shift, round and note whether anything was lost. */
  method RoundFraction(f: Format, sign: bool, mant: nat, d: nat, rm: Mode, ghost x: Exact)
    returns (k: nat, inexact: bool)
    requires f.Valid() && IsWord(f, mant) && Agrees(x, Jam(mant, d), f.Rnd() - 1, -1)
    ensures RoundsToInt(rm, sign, x, k)
    ensures inexact <==> Cmp(x, k as real) != 0
  {
    hide Pow2;
    hide Jam;
    hide Shr;
    hide Low;
    hide Agrees;
    hide RoundsToInt;
    hide Cmp;
    hide RoundMant;
    hide Addend;
    var aMant := RShiftRnd(f, mant, d);
    ghost var m := aMant;
    IntRound(f, rm, sign, x, m);
    RoundMantCode(f, rm, sign, m);
    var addend := Addend(f, rm, sign);
    var rndBits := Low(aMant, f.Rnd());
    aMant := Shr(aMant + addend, f.Rnd());
    // a tie goes to the even neighbour
    if rm == RNE && rndBits == Pow2(f.Rnd() - 1) {
      aMant := aMant - aMant % 2;
    }
    k, inexact := aMant, rndBits != 0;
  }

  /** From a rounded magnitude to the result and flags. */
  lemma Saturates(f: Format, n: nat, unsigned: bool, rm: Mode, a: nat, sign: bool, k: nat, inexact: bool,
                  before: set<Flag>)
    requires f.Valid() && n >= 1 && Finite(f, a) && sign == SignOf(f, a)
    requires RoundsToInt(rm, sign, Num(Value(f, a)), k)
    requires inexact <==> Cmp(Num(Value(f, a)), k as real) != 0
    ensures k > LimitMagnitude(n, unsigned, sign) ==>
              ToIntIs(f, n, unsigned, rm, a, before, before + {NV}, LimitMagnitude(n, unsigned, sign))
    ensures k <= LimitMagnitude(n, unsigned, sign) ==>
              ToIntIs(f, n, unsigned, rm, a, before, if inexact then before + {NX} else before,
                      if sign then SubWord(n, 0, k) else k)
  {
    hide Pow2;
    hide SignOf;
    hide Value;
    hide RoundsToInt;
    hide Cmp;
    hide IntWord;
    hide IntMin;
    hide IntMax;
    hide LimitMagnitude;
    hide SubWord;
    hide Finite;
    LimitIs(n, unsigned, sign, k);
    assert before + {} == before;
    var max := LimitMagnitude(n, unsigned, sign);
    var r := if k > max then max else if sign then SubWord(n, 0, k) else k;
    var after := if k > max then before + {NV} else if inexact then before + {NX} else before;
    assert ToIntFrom(n, unsigned, sign, Cmp(Num(Value(f, a)), k as real) == 0, k, before, after, r);
  }

  lemma RoundMantCode(f: Format, rm: Mode, sign: bool, m: nat)
    requires f.Valid()
    ensures var r := Shr(m + Addend(f, rm, sign), f.Rnd());
      RoundMant(f, rm, sign, m) == if rm == RNE && Low(m, f.Rnd()) == Pow2(f.Rnd() - 1) then r - r % 2 else r
  {
  }

  /** The significand moved up to make room for the guard bits. */
  function GuardedMant(f: Format, a: nat): nat
    requires f.Valid()
  {
    RawMant(f, a) * Pow2(f.Rnd())
  }

  lemma RawOperand(f: Format, a: nat)
    requires f.Valid() && IsWord(f, a)
    ensures RawMant(f, a) == if ExpOf(f, a) == 0 then MantOf(f, a) else BitOr(MantOf(f, a), Pow2(f.mant))
    ensures Shl(f.size, RawMant(f, a), f.Rnd()) == GuardedMant(f, a) < Pow2(f.size)
    ensures Shr(GuardedMant(f, a), f.Rnd()) == RawMant(f, a)
  {
    hide Pow2;
    hide Shl;
    hide ExpOf;
    hide MantOf;
    hide BitOr;
    hide Magnitude;
    RawFields(f, a);
    var m := RawMant(f, a);
    RndSplit(f, 0);
    MulOrder(m, 2 * Pow2(f.mant), Pow2(f.Rnd()));
    Pow2Mono(f.size - 1, f.size);
    ShlSmall(f.size, m, f.Rnd());
    MulMod(m, Pow2(f.Rnd()));
  }

  /** With a non-negative exponent the value is an integer. */
  lemma LargeValue(f: Format, n: nat, a: nat)
    requires f.Valid() && IsWord(f, a) && RawExp(f, a) - f.Bias() - f.mant >= 0
    ensures var e := RawExp(f, a) - f.Bias() - f.mant;
      && RawMant(f, a) >= Pow2(f.mant)
      && (e <= n - 1 - f.mant ==>
            && Shl(n, RawMant(f, a), e) == RawMant(f, a) * Pow2(e)
            && Value(f, a) == (RawMant(f, a) * Pow2(e)) as real)
  {
    hide Pow2;
    hide P2;
    hide Shl;
    hide Value;
    hide RawExp;
    hide RawMant;
    hide Format.Bias;
    RawRange(f, a);
    RawValue(f, a);
    var e := RawExp(f, a) - f.Bias() - f.mant;
    BiasPositive(f);
    UnitScale();
    if e <= n - 1 - f.mant {
      ScaleInto(RawMant(f, a), e, e, Value(f, a));
      HalvePow(f.mant + 1);
      Pow2Add(f.mant + 1, e);
      MulOrder(RawMant(f, a), Pow2(f.mant + 1), Pow2(e));
      Pow2Mono(f.mant + 1 + e, n);
      ShlSmall(n, RawMant(f, a), e);
    }
  }

  lemma BiasPositive(f: Format)
    requires f.Valid()
    ensures f.Bias() >= 1 && f.ExpMask() == 2 * f.Bias() + 1 && f.Bias() + 1 == Pow2(f.exp - 1)
  {
    hide Pow2;
    HalvePow(f.exp);
    Pow2Mono(1, f.exp - 1);
    OnePow();
  }

  /** Beyond the exponents of the integer type every value, infinity or NaN saturates. */
  lemma TooLarge(f: Format, n: nat, unsigned: bool, rm: Mode, a: nat, sign: bool, before: set<Flag>)
    requires f.Valid() && IsWord(f, a) && 1 <= n <= Pow2(f.exp - 1)
    requires RawExp(f, a) - f.Bias() - f.mant >= 0 && RawExp(f, a) - f.Bias() - f.mant > n - 1 - f.mant
    requires sign == (SignOf(f, a) && !NaN(f, a))
    ensures ToIntIs(f, n, unsigned, rm, a, before, before + {NV}, LimitMagnitude(n, unsigned, sign))
  {
    hide Pow2;
    hide P2;
    hide Value;
    hide RawExp;
    hide RawMant;
    hide SignOf;
    hide Magnitude;
    hide RoundsToInt;
    hide IntWord;
    hide Cmp;
    hide LimitMagnitude;
    hide Format.Bias;
    hide Format.Inf;
    LargeValue(f, n, a);
    LimitIs(n, unsigned, sign, 0);
    if Finite(f, a) {
      RawValue(f, a);
      var e := RawExp(f, a) - f.Bias() - f.mant;
      UnitScale();
      ScaleInto(RawMant(f, a), e, e, Value(f, a));
      var k := RawMant(f, a) * Pow2(e);
      Pow2Add(f.mant, e);
      MulOrder(Pow2(f.mant), RawMant(f, a), Pow2(e));
      Pow2Mono(n, f.mant + e);
      LimitIs(n, unsigned, sign, k);
      IntegerRounds(rm, sign, k);
      assert ToIntFrom(n, unsigned, sign, Cmp(Num(Value(f, a)), k as real) == 0, k, before, before + {NV},
                       LimitMagnitude(n, unsigned, sign));
    }
  }

  /** With a negative exponent the jammed shift decides every rounding at a half integer. */
  lemma SmallValue(f: Format, a: nat)
    requires f.Valid() && IsWord(f, a) && RawExp(f, a) - f.Bias() - f.mant < 0
    ensures var d := 0 - (RawExp(f, a) - f.Bias() - f.mant);
      Agrees(Num(Value(f, a)), Jam(GuardedMant(f, a), d), f.Rnd() - 1, -1)
  {
    hide Pow2;
    hide P2;
    hide Jam;
    hide Agrees;
    hide Equals;
    hide Value;
    hide RawExp;
    hide RawMant;
    hide Format.Bias;
    RawValue(f, a);
    var e := RawExp(f, a) - f.Bias() - f.mant;
    var d := 0 - e;
    var m := GuardedMant(f, a);
    ScaleInto(RawMant(f, a), f.Rnd(), e, Value(f, a));
    EqualsNum(Value(f, a), m, e - f.Rnd());
    EqualsAgrees(Num(Value(f, a)), m, e - f.Rnd());
    AgreesCoarser(Num(Value(f, a)), m, 0, e - f.Rnd(), f.Rnd() - 1 + d);
    AgreesJam(Num(Value(f, a)), m, f.Rnd() - 1, -1, d);
  }

  // ---------- integer to float ----------

  function AbsInt(v: int): nat {
    if v < 0 then -v else v
  }

  ghost predicate FromIntIs(f: Format, rm: Mode, v: int, before: set<Flag>, after: set<Flag>, r: nat)
    requires f.Valid()
  {
    Delivers(f, rm, v < 0, Num(AbsInt(v) as real), before, after, r)
  }

  /** internal_cvt_i_sf: every integer is correctly rounded. */
  method CvtIntSf(fcsr: Fcsr, f: Format, n: nat, w: nat, rm: Mode, unsigned: bool) returns (r: nat)
    requires f.Valid() && n >= 1 && w < Pow2(n)
    modifies fcsr
    ensures FromIntIs(f, rm, IntValue(n, unsigned, w), old(fcsr.raised), fcsr.raised, r)
  {
    hide Pow2;
    hide Delivers;
    hide Ready;
    hide Clz;
    hide BitOr;
    hide Low;
    hide Shr;
    hide SubWord;
    hide Format.Bias;
    ghost var v := IntValue(n, unsigned, w);
    NegateWord(n, w);
    var sign := !unsigned && w >= Pow2(n - 1);
    var m := w;
    if sign {
      m := SubWord(n, 0, w);
    }
    assert m == AbsInt(v);
    assert m < Pow2(n) by { HalvePow(n); }
    var exp := f.Bias() + f.size - 2;
    // fold the low bits of a wide integer into one
    var l := n - Clz(n, m) - (f.size - 1);
    IntReady(f, n, m);
    if l > 0 {
      var mask := Low(m, l);
      m := BitOr(Shr(m, l), B2N(mask != 0));
      exp := exp + l;
    }
    r := NormalizeSf(fcsr, f, sign, exp, m, rm, Num(AbsInt(v) as real));
  }

  lemma NegateWord(n: nat, w: nat)
    requires n >= 1 && w < Pow2(n)
    ensures w >= Pow2(n - 1) ==> SubWord(n, 0, w) == Pow2(n) - w
  {
    hide Pow2;
    HalvePow(n);
    if w >= Pow2(n - 1) {
      Pow2Mono(0, n - 1);
      OnePow();
      DivUnique(0 - w, Pow2(n), -1, Pow2(n) - w);
    }
  }

  lemma IntReady(f: Format, n: nat, m: nat)
    requires f.Valid() && m < Pow2(n)
    ensures var l := n - Clz(n, m) - (f.size - 1);
      var k := if l > 0 then BitOr(Shr(m, l), B2N(Low(m, l) != 0)) else m;
      && k < Pow2(f.size - 1)
      && Ready(f, Num(m as real), f.Bias() + f.size - 2 + (if l > 0 then l else 0), k)
  {
    hide *;
    var l := n - Clz(n, m) - (f.size - 1);
    if l > 0 {
      IntReadyWide(f, n, m, l);
    } else {
      IntReadyNarrow(f, n, m);
    }
  }

  lemma IntReadyWide(f: Format, n: nat, m: nat, l: nat)
    requires f.Valid() && m < Pow2(n)
    requires l == n - Clz(n, m) - (f.size - 1) && l > 0
    ensures var k := BitOr(Shr(m, l), B2N(Low(m, l) != 0));
      k < Pow2(f.size - 1) && Ready(f, Num(m as real), f.Bias() + f.size - 2 + l, k)
  {
    hide Pow2;
    hide P2;
    hide BitOr;
    hide Clz;
    hide Equals;
    hide Agrees;
    hide Jam;
    hide Format.Bias;
    UnitScale();
    EqualsNum(m as real, m, 0);
    ClzZero(n);
    ClzTop(n, m);
    EqualsAgrees(Num(m as real), m, 0);
    AgreesCoarser(Num(m as real), m, 0, 0, 1 + l);
    AgreesJam(Num(m as real), m, 1, 1 + l, l);
    JamBetween(l, m, f.size - 2, f.size - 1);
    Pow2Mono(f.mant + 2, f.size - 2);
    JamIsSticky(m, l);
  }

  lemma JamIsSticky(m: nat, l: nat)
    ensures Jam(m, l) == BitOr(Shr(m, l), B2N(Low(m, l) != 0))
  {
    hide BitOr;
    hide Pow2;
  }

  lemma IntReadyNarrow(f: Format, n: nat, m: nat)
    requires f.Valid() && m < Pow2(n)
    requires n - Clz(n, m) <= f.size - 1
    ensures m < Pow2(f.size - 1) && Ready(f, Num(m as real), f.Bias() + f.size - 2, m)
  {
    hide Pow2;
    hide P2;
    hide Clz;
    hide Equals;
    hide Agrees;
    hide Format.Bias;
    UnitScale();
    EqualsNum(m as real, m, 0);
    if m > 0 {
      ClzTop(n, m);
      Pow2Mono(n - Clz(n, m), f.size - 1);
    }
  }

  // ---------- round trip ----------

  /** An integer of at most MANT_SIZE + 1 bits is a magnitude of the format. */
  lemma SmallIntegerExact(f: Format, v: nat) returns (k: nat)
    requires f.Valid() && f.mant < f.Bias() && v <= Pow2(f.mant + 1)
    ensures k < f.Inf() && Val(f, false, k) == v as real
  {
    hide *;
    if v == 0 {
      ZeroVal(f);
      InfAtLeast(f);
      k := 0;
    } else if v == Pow2(f.mant + 1) {
      HalvePow(f.mant + 1);
      P2Next(0);
      UnitScale();
      k := IntegerAt(f, Pow2(f.mant), f.mant + 1, v);
    } else {
      var l := BitLen(v);
      BitLenBound(v, f.mant + 1);
      TopShift(f.mant + 1, l, v);
      var t: nat := f.mant + 1 - l;
      ScaleUpInt(v, t);
      HalvePow(f.mant + 1);
      k := IntegerAt(f, v * Pow2(t), l - 1, v);
    }
  }

  lemma ScaleUpInt(v: nat, t: nat)
    ensures v as real == (v * Pow2(t)) as real * P2(0 - t)
  {
    hide Pow2;
    hide P2;
    UnitScale();
    ScaleInto(v, t, 0, v as real);
  }

  lemma IntegerAt(f: Format, q: nat, top: nat, v: nat) returns (k: nat)
    requires f.Valid() && f.mant < f.Bias() && top <= f.mant + 1
    requires Pow2(f.mant) <= q < 2 * Pow2(f.mant) && (top == f.mant + 1 ==> q == Pow2(f.mant))
    requires v as real == q as real * P2(top - f.mant)
    ensures k < f.Inf() && Val(f, false, k) == v as real
  {
    hide *;
    BiasPositive(f);
    var p := Pow2(f.mant);
    assert f.exp >= 1 by { ValidExp(f); }
    var e: nat := f.Bias() + top;
    MulOrder(0, e - 1, p);
    k := (e - 1) * p + q;
    Distribute(e, 1, p);
    InfIs(f);
    Below(p, e, q, f.ExpMask());
    ValGridAt(f, false, e, q, k);
    assert e - f.Bias() - f.mant == top - f.mant;
  }

  lemma Below(p: nat, e: nat, q: nat, mask: nat)
    requires p >= 1 && q < 2 * p && e < mask
    ensures (e - 1) * p + q < mask * p
  {
    MulOrder(e + 1, mask, p);
    Distribute(e, 1, p);
  }

  lemma ValidExp(f: Format)
    requires f.Valid()
    ensures f.exp >= 5
  {
  }

  lemma InfIs(f: Format)
    requires f.Valid()
    ensures f.Inf() == f.ExpMask() * Pow2(f.mant)
  {
  }

  /** Converting an integer that fits the significand to a float and back is the identity
      and raises no flag, whatever the two rounding modes. */
  lemma IntRoundTrip(f: Format, n: nat, unsigned: bool, rm: Mode, rm': Mode, i: nat,
                     s0: set<Flag>, s1: set<Flag>, s2: set<Flag>, w: nat, r: nat)
    requires f.Valid() && f.mant < f.Bias() && n >= 1 && i < Pow2(n)
    requires AbsInt(IntValue(n, unsigned, i)) <= Pow2(f.mant + 1)
    requires FromIntIs(f, rm, IntValue(n, unsigned, i), s0, s1, w)
    requires IsWord(f, w) && ToIntIs(f, n, unsigned, rm', w, s1, s2, r)
    ensures r == i && s2 == s0
  {
    hide Pow2;
    hide Val;
    hide Delivers;
    hide SignOf;
    hide Magnitude;
    hide Encode;
    hide RoundsToInt;
    hide Cmp;
    hide IntWord;
    hide IntValue;
    hide IntMin;
    hide IntMax;
    hide Format.Inf;
    hide Format.Bias;
    var v := IntValue(n, unsigned, i);
    var k := SmallIntegerExact(f, AbsInt(v));
    ExactDelivers(f, rm, v < 0, k, s0);
    DeliversUnique(f, rm, v < 0, Num(AbsInt(v) as real), s0, s1, w, s0, Encode(f, v < 0, k));
    InfBound(f);
    EncodeIs(f, v < 0, k);
    IntWordValue(n, unsigned, i);
    IntegerRounds(rm', v < 0, AbsInt(v));
    var j: nat :| RoundsToInt(rm', SignOf(f, w), Num(Value(f, w)), j)
      && ToIntFrom(n, unsigned, SignOf(f, w), Cmp(Num(Value(f, w)), j as real) == 0, j, s1, s2, r);
    RoundsToIntUnique(rm', v < 0, Num(AbsInt(v) as real), j, AbsInt(v));
    assert Cmp(Num(Value(f, w)), j as real) == 0 by { CmpExact(AbsInt(v)); }
  }

  lemma CmpExact(k: nat)
    ensures Cmp(Num(k as real), k as real) == 0
  {
  }
}
