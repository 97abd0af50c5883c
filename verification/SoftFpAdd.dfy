/** Addition and subtraction (softfp_template.h:234-296). */
module SoftFpAdd {
  import opened Bits
  import opened Ieee
  import opened Sticky
  import opened SoftFpRound
  import opened Operand

  function Abs(v: real): real {
    if v < 0.0 then -v else v
  }

  /** The signed exact sum `v` is correctly rounded; an exact zero takes sign `zeroSign`. */
  ghost predicate DeliversSum(f: Format, rm: Mode, v: real, zeroSign: bool,
                              before: set<Flag>, after: set<Flag>, r: nat)
    requires f.Valid()
  {
    Delivers(f, rm, if v == 0.0 then zeroSign else v < 0.0, Num(Abs(v)), before, after, r)
  }

  /** The sign of an exact zero sum (IEEE 754-2019 section 6.3). */
  predicate ZeroSign(rm: Mode, s: bool, t: bool) {
    if s == t then s else rm == RDN
  }

  ghost predicate SumIs(f: Format, rm: Mode, a: nat, b: nat, before: set<Flag>, after: set<Flag>, r: nat)
    requires f.Valid()
  {
    if NaN(f, a) || NaN(f, b) then
      r == f.QNaN() && after == before + (if Signalling(f, a) || Signalling(f, b) then {NV} else {})
    else if Infinite(f, a) && Infinite(f, b) && SignOf(f, a) != SignOf(f, b) then
      r == f.QNaN() && after == before + {NV}
    else if Infinite(f, a) then r == a && after == before
    else if Infinite(f, b) then r == b && after == before
    else DeliversSum(f, rm, Signed(f, a) + Signed(f, b), ZeroSign(rm, SignOf(f, a), SignOf(f, b)),
                     before, after, r)
  }

  /** add_sf. */
  method AddSf(fcsr: Fcsr, f: Format, a0: nat, b0: nat, rm: Mode) returns (r: nat)
    requires f.Valid() && IsWord(f, a0) && IsWord(f, b0)
    modifies fcsr
    ensures SumIs(f, rm, a0, b0, old(fcsr.raised), fcsr.raised, r)
  {
    hide Pow2;
    hide Delivers;
    hide SignOf;
    hide Magnitude;
    hide ExpOf;
    hide MantOf;
    hide BitOr;
    hide Shl;
    hide Jam;
    hide Signed;
    hide Ready;
    hide Format.ExpMask;
    hide Format.Inf;
    hide Format.Bias;
    hide Format.QNaN;
    // the operand of larger magnitude goes first
    var a, b := a0, b0;
    if Magnitude(f, a) < Magnitude(f, b) {
      a, b := b, a;
    }
    ClassesByFields(f, a);
    ClassesByFields(f, b);
    FieldsOf(f, a);
    FieldsOf(f, b);
    var aSign, bSign := SignOf(f, a), SignOf(f, b);
    var aExp, bExp := ExpOf(f, a), ExpOf(f, b);
    var aMant, bMant := Shl(f.size, MantOf(f, a), 3), Shl(f.size, MantOf(f, b), 3);
    GuardShift(f, MantOf(f, a));
    GuardShift(f, MantOf(f, b));
    if aExp == f.ExpMask() {
      if aMant != 0 {
        // some NaN is involved
        QuietBit(f, a);
        if MantOf(f, a) < Pow2(f.mant - 1) || IsSigNanSf(f, b) {
          fcsr.raised := fcsr.raised + {NV};
        }
        return f.QNaN();
      } else if bExp == f.ExpMask() && aSign != bSign {
        fcsr.raised := fcsr.raised + {NV};
        return f.QNaN();
      } else {
        // the infinite operand wins
        return a;
      }
    }
    if aExp == 0 {
      aExp := 1;
    } else {
      aMant := BitOr(aMant, Pow2(f.mant + 3));
    }
    if bExp == 0 {
      bExp := 1;
    } else {
      bMant := BitOr(bMant, Pow2(f.mant + 3));
    }
    GuardedIs(f, a);
    GuardedIs(f, b);
    SumReady(f, a, b);
    hide *;
    bMant := RShiftRnd(f, bMant, aExp - bExp);
    if aSign == bSign {
      // magnitudes add up
      aMant := aMant + bMant;
    } else {
      // magnitudes cancel
      aMant := aMant - bMant;
      if aMant == 0 {
        aSign := rm == RDN;
      }
    }
    aExp := aExp + (f.Rnd() - 3);
    ghost var v := Signed(f, a) + Signed(f, b);
    r := NormalizeSf(fcsr, f, aSign, aExp, aMant, rm, Num(Abs(v)));
    SumFinite(f, rm, a0, b0, a, b, aSign, v, old(fcsr.raised), fcsr.raised, r);
  }

  /** What is left to show once the special operands are gone and the larger one is `a`. */
  lemma SumFinite(f: Format, rm: Mode, a0: nat, b0: nat, a: nat, b: nat, sign: bool, v: real,
                  before: set<Flag>, after: set<Flag>, r: nat)
    requires f.Valid() && ((a, b) == (a0, b0) || (a, b) == (b0, a0)) && Finite(f, a) && Finite(f, b)
    requires v == Signed(f, a) + Signed(f, b)
    requires sign == if v == 0.0 then ZeroSign(rm, SignOf(f, a), SignOf(f, b)) else v < 0.0
    requires Delivers(f, rm, sign, Num(Abs(v)), before, after, r)
    ensures SumIs(f, rm, a0, b0, before, after, r)
  {
    hide Signed;
    hide Delivers;
    hide SignOf;
    hide Magnitude;
    hide Format.Inf;
  }

  lemma GuardShift(f: Format, m: nat)
    requires f.Valid() && m < Pow2(f.mant)
    ensures Shl(f.size, m, 3) == 8 * m
  {
    hide Pow2;
    OnePow();
    Pow2Mono(f.mant, f.size - 3);
    ShlExact(f.size, m, 3);
  }

  lemma QuietBit(f: Format, a: nat)
    requires f.Valid() && IsWord(f, a)
    ensures NaN(f, a) ==> (Signalling(f, a) <==> MantOf(f, a) < Pow2(f.mant - 1))
  {
    hide Pow2;
    ClassesByFields(f, a);
    QuietField(f, a);
  }

  /** The operand with three guard bits. */
  function Guarded(f: Format, a: nat): nat {
    8 * RawMant(f, a)
  }

  lemma GuardedIs(f: Format, a: nat)
    requires f.Valid() && IsWord(f, a)
    ensures Guarded(f, a) == if ExpOf(f, a) == 0 then Shl(f.size, MantOf(f, a), 3)
                             else BitOr(Shl(f.size, MantOf(f, a), 3), Pow2(f.mant + 3))
    ensures Guarded(f, a) < Pow2(f.size)
  {
    hide Pow2;
    hide Shl;
    hide BitOr;
    hide ExpOf;
    hide MantOf;
    hide Magnitude;
    hide Format.ExpMask;
    hide Format.Inf;
    RawFields(f, a);
    FieldsOf(f, a);
    GuardShift(f, MantOf(f, a));
    GuardedOr(f, MantOf(f, a));
  }

  lemma GuardedOr(f: Format, m: nat)
    requires f.Valid() && m < Pow2(f.mant)
    ensures BitOr(8 * m, Pow2(f.mant + 3)) == 8 * (m + Pow2(f.mant))
    ensures 16 * Pow2(f.mant) < Pow2(f.size)
  {
    hide Pow2;
    hide BitOr;
    Pow2Add(f.mant, 3);
    OnePow();
    MulMod(1, Pow2(f.mant + 3));
    BitOrDisjoint(Pow2(f.mant + 3), 8 * m, f.mant + 3);
    Pow2Add(f.mant, 5);
    SixteenPow();
    Pow2Mono(f.mant + 5, f.size);
  }

  lemma SixteenPow()
    ensures Pow2(4) == 16 && Pow2(5) == 32
  {
  }

  /** Everything normalize_sf needs, for either sign combination. */
  lemma SumReady(f: Format, a: nat, b: nat)
    requires f.Valid() && IsWord(f, a) && IsWord(f, b)
    requires Finite(f, a) && Finite(f, b) && Magnitude(f, a) >= Magnitude(f, b)
    ensures RawExp(f, a) >= RawExp(f, b)
    ensures var d := RawExp(f, a) - RawExp(f, b);
      var sub := SignOf(f, a) != SignOf(f, b);
      var v := Signed(f, a) + Signed(f, b);
      Jam(Guarded(f, b), d) <= Guarded(f, a) &&
      var m: nat := if sub then Guarded(f, a) - Jam(Guarded(f, b), d) else Guarded(f, a) + Jam(Guarded(f, b), d);
      && m < Pow2(f.size - 1)
      && Ready(f, Num(Abs(v)), RawExp(f, a) + f.Rnd() - 3, m)
      && (m == 0 ==> v == 0.0)
      && (v == 0.0 ==> if sub then m == 0 else SignOf(f, a) == SignOf(f, b))
      && (v != 0.0 ==> m != 0 && (v < 0.0) == SignOf(f, a))
  {
    hide Pow2;
    hide Jam;
    hide Ready;
    hide Magnitude;
    hide SignOf;
    hide RawExp;
    hide RawMant;
    hide Value;
    hide Format.Inf;
    hide Format.Bias;
    var sub := SignOf(f, a) != SignOf(f, b);
    ExpOrder(f, a, b);
    ValueOrder(f, a, b);
    SumBounds(f, a, b, sub);
    var d := RawExp(f, a) - RawExp(f, b);
    var w := if sub then Value(f, a) - Value(f, b) else Value(f, a) + Value(f, b);
    var m: nat := if sub then Guarded(f, a) - Jam(Guarded(f, b), d) else Guarded(f, a) + Jam(Guarded(f, b), d);
    SumExact(f, a, b, sub, w);
    SumRounds(f, Num(w), RawExp(f, a), Guarded(f, a), Guarded(f, b), d, sub);
    ReadyZeroIff(f, Num(w), RawExp(f, a) + f.Rnd() - 3, m);
    ValueZero(f, a);
    ValueZero(f, b);
    assert Abs(Signed(f, a) + Signed(f, b)) == w;
  }

  lemma ValueOrder(f: Format, a: nat, b: nat)
    requires f.Valid() && Magnitude(f, a) >= Magnitude(f, b)
    ensures Value(f, a) >= Value(f, b) >= 0.0
  {
    hide Val;
    hide Magnitude;
    ValMono(f, false, Magnitude(f, b), Magnitude(f, a));
    ValueZero(f, b);
  }

  lemma ExpOrder(f: Format, a: nat, b: nat)
    requires f.Valid() && IsWord(f, a) && IsWord(f, b) && Magnitude(f, a) >= Magnitude(f, b)
    ensures RawExp(f, a) >= RawExp(f, b)
    ensures RawExp(f, a) == RawExp(f, b) ==> RawMant(f, a) >= RawMant(f, b)
  {
    hide Pow2;
    hide Magnitude;
    hide RawExp;
    hide RawMant;
    RawFields(f, a);
    RawFields(f, b);
    var p := Pow2(f.mant);
    if RawExp(f, a) < RawExp(f, b) {
      Distribute(RawExp(f, a), 1, p);
      MulOrder(RawExp(f, a), RawExp(f, b) - 1, p);
    }
  }

  lemma SumBounds(f: Format, a: nat, b: nat, sub: bool)
    requires f.Valid() && IsWord(f, a) && IsWord(f, b) && RawExp(f, a) >= RawExp(f, b)
    requires RawExp(f, a) == RawExp(f, b) ==> RawMant(f, a) >= RawMant(f, b)
    ensures var d := RawExp(f, a) - RawExp(f, b);
      var c := Jam(Guarded(f, b), d);
      && c <= Guarded(f, a) && Guarded(f, a) + c < Pow2(f.size - 1)
      && (d > 3 ==> Guarded(f, a) - c >= Pow2(f.mant + 2))
  {
    hide Pow2;
    hide Jam;
    hide RawExp;
    hide RawMant;
    hide Magnitude;
    RawRange(f, a);
    RawRange(f, b);
    var d := RawExp(f, a) - RawExp(f, b);
    WordRoom(f);
    JamSmall(Guarded(f, b), d, Pow2(f.mant));
    GuardBounds(RawMant(f, a), RawMant(f, b), RawExp(f, a), RawExp(f, b), Jam(Guarded(f, b), d), Pow2(f.mant));
  }

  lemma WordRoom(f: Format)
    requires f.Valid()
    ensures Pow2(f.mant + 2) == 4 * Pow2(f.mant)
    ensures 32 * Pow2(f.mant) <= Pow2(f.size - 1)
  {
    hide Pow2;
    Pow2Add(f.mant, 2);
    Pow2Add(f.mant, 5);
    OnePow();
    SixteenPow();
    Pow2Mono(f.mant + 5, f.size - 1);
  }

  lemma GuardBounds(ma: nat, mb: nat, ea: nat, eb: nat, j: nat, p: nat)
    requires ea >= eb >= 1 && ma < 2 * p && mb < 2 * p && (ma >= p || ea == 1)
    requires ea == eb ==> ma >= mb && j == 8 * mb
    requires ea > eb ==> j <= 8 * p - 3
    requires ea > eb + 3 ==> j <= p
    ensures j <= 8 * ma && 8 * ma + j < 32 * p
    ensures ea > eb + 3 ==> 8 * ma - j >= 4 * p
  {
  }

  lemma JamSmall(c: nat, d: nat, p: nat)
    requires c < 16 * p && c % 8 == 0
    ensures d == 0 ==> Jam(c, d) == c
    ensures d > 0 ==> Jam(c, d) <= 8 * p - 3
    ensures d > 3 ==> Jam(c, d) <= p
  {
    hide Pow2;
    hide Jam;
    JamZero(c);
    if d > 0 {
      OnePow();
      SixteenPow();
      GuardFraction(c, p);
      JamBounds(c, d);
      Pow2Mono(1, d);
      DivLe(c, 2, Pow2(d));
      if d > 3 {
        Pow2Mono(4, d);
        DivLe(c, 16, Pow2(d));
      }
    }
  }

  lemma GuardFraction(c: nat, p: nat)
    requires c < 16 * p && c % 8 == 0
    ensures c / 2 <= 8 * p - 4 && c / 16 <= p - 1
  {
  }

  lemma DivLe(c: nat, k: nat, p: nat)
    requires 1 <= k <= p
    ensures c / p <= c / k
  {
    DivMod(c, p);
    DivMod(c, k);
    DivNonneg(c, p);
    if c / p > c / k {
      MulOrder(c / k + 1, c / p, k);
      Distribute(c / k, 1, k);
      MulLeft(c / p, k, p);
    }
  }

  /** The exact sum in units of the smaller operand's last guard bit. */
  lemma SumExact(f: Format, a: nat, b: nat, sub: bool, w: real)
    requires f.Valid() && IsWord(f, a) && IsWord(f, b) && RawExp(f, a) >= RawExp(f, b)
    requires w == if sub then Value(f, a) - Value(f, b) else Value(f, a) + Value(f, b)
    ensures var d := RawExp(f, a) - RawExp(f, b);
      var m, n := Guarded(f, a), Guarded(f, b);
      Equals(Num(w), if sub then m * Pow2(d) - n else m * Pow2(d) + n, RawExp(f, a) - f.Bias() - f.mant - 3 - d)
  {
    hide Pow2;
    hide P2;
    hide Value;
    hide RawExp;
    hide RawMant;
    hide Format.Bias;
    hide Equals;
    var d := RawExp(f, a) - RawExp(f, b);
    var m, n := Guarded(f, a), Guarded(f, b);
    var g := RawExp(f, a) - f.Bias() - f.mant - 3;
    RawValue(f, a);
    RawValue(f, b);
    OnePow();
    ScaleInto(RawMant(f, a), 3, g + 3, Value(f, a));
    ScaleInto(RawMant(f, b), 3, g + 3 - d, Value(f, b));
    ScaleInto(m, d, g, Value(f, a));
    SumScaled(Value(f, a), Value(f, b), m * Pow2(d), n, g - d);
    EqualsNum(w, if sub then m * Pow2(d) - n else m * Pow2(d) + n, g - d);
  }

  /** Three guard bits suffice: shifts up to 3 lose nothing, and after a longer shift the
      subtraction cancels at most one bit. */
  lemma SumRounds(f: Format, x: Exact, e: int, r: nat, c: nat, d: nat, sub: bool)
    requires f.Valid() && r % 8 == 0 && c % 8 == 0
    requires Equals(x, if sub then r * Pow2(d) - c else r * Pow2(d) + c, e - f.Bias() - f.mant - 3 - d)
    requires Jam(c, d) <= r && (d > 3 ==> r - Jam(c, d) >= Pow2(f.mant + 2))
    ensures Ready(f, x, e + f.Rnd() - 3, if sub then r - Jam(c, d) else r + Jam(c, d))
  {
    hide Pow2;
    hide Jam;
    hide Equals;
    hide Agrees;
    hide Format.Bias;
    var g := e - f.Bias() - f.mant - 3;
    assert Unit(f, e + f.Rnd() - 3) == g;
    if d <= 3 {
      SmallShiftExact(c, d);
      EqualsSum(x, r, c, d, sub, g);
    } else {
      AgreesSum(x, r, c, d, sub, g);
    }
  }

  lemma SmallShiftExact(c: nat, d: nat)
    requires d <= 3 && c % 8 == 0
    ensures c % Pow2(d) == 0
  {
    OnePow();
    if d == 0 {
    } else if d == 1 {
    } else if d == 2 {
    } else {
    }
  }

  /** A mantissa handed to normalize_sf is zero exactly when the exact value is. */
  lemma ReadyZeroIff(f: Format, x: Exact, exp: int, m: nat)
    requires f.Valid() && Ready(f, x, exp, m)
    ensures m == 0 <==> Cmp(x, 0.0) == 0
  {
    hide Pow2;
    hide Format.Bias;
    hide Cmp;
    var e := Unit(f, exp);
    if Equals(x, m, e) {
      EqualsAgrees(x, m, e);
      assert AgreesAt(x, m, 0, e, 0);
      SideIs(x, 0, e, 0.0);
    } else {
      assert AgreesAt(x, m, 1, e + 1, 0);
      SideIs(x, 0, e + 1, 0.0);
    }
  }

  /** `b ^ SIGN_MASK`. */
  function FlipSign(f: Format, b: nat): nat
    requires f.size >= 1
  {
    Encode(f, !SignOf(f, b), Magnitude(f, b))
  }

  lemma FlipSignIs(f: Format, b: nat)
    requires f.Valid() && IsWord(f, b)
    ensures IsWord(f, FlipSign(f, b))
    ensures SignOf(f, FlipSign(f, b)) == !SignOf(f, b)
    ensures Magnitude(f, FlipSign(f, b)) == Magnitude(f, b)
  {
    hide Pow2;
    FieldsOf(f, b);
    HalvePow(f.size);
    EncodeIs(f, !SignOf(f, b), Magnitude(f, b));
  }

  /** sub_sf: addition of the negated operand, so the signed difference is rounded. */
  method SubSf(fcsr: Fcsr, f: Format, a: nat, b: nat, rm: Mode) returns (r: nat)
    requires f.Valid() && IsWord(f, a) && IsWord(f, b)
    modifies fcsr
    ensures SumIs(f, rm, a, FlipSign(f, b), old(fcsr.raised), fcsr.raised, r)
    ensures Finite(f, a) && Finite(f, b) ==>
              DeliversSum(f, rm, Signed(f, a) - Signed(f, b), ZeroSign(rm, SignOf(f, a), !SignOf(f, b)),
                          old(fcsr.raised), fcsr.raised, r)
  {
    hide Pow2;
    hide FlipSign;
    hide DeliversSum;
    hide Magnitude;
    hide SignOf;
    FlipSignIs(f, b);
    r := AddSf(fcsr, f, a, FlipSign(f, b), rm);
  }
}
