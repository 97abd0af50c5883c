/** Packing, rounding and normalisation (softfp_template.h:78-213). */
module SoftFpRound {
  import opened Bits
  import opened Ieee
  import opened Sticky

  /** The accrued exception flags the C code reaches through `pfflags`. */
  class Fcsr {
    var raised: set<Flag>

    constructor ()
      ensures raised == {}
    {
      raised := {};
    }
  }

  // ---------- fields of an encoding ----------

  predicate IsWord(f: Format, a: nat) {
    a < Pow2(f.size)
  }

  function SignOf(f: Format, a: nat): bool
    requires f.size >= 1
  {
    Shr(a, f.size - 1) != 0
  }

  /** `a & ~SIGN_MASK`. */
  function Magnitude(f: Format, a: nat): nat
    requires f.size >= 1
  {
    Low(a, f.size - 1)
  }

  function ExpOf(f: Format, a: nat): nat {
    Low(Shr(a, f.mant), f.exp)
  }

  function MantOf(f: Format, a: nat): nat {
    Low(a, f.mant)
  }

  function PackSf(f: Format, sign: bool, exp: nat, mant: nat): nat
    requires f.size >= 1
  {
    BitOr(BitOr(B2N(sign) * Pow2(f.size - 1), exp * Pow2(f.mant)), Low(mant, f.mant))
  }

  lemma InfBound(f: Format)
    requires f.Valid()
    ensures f.Inf() + Pow2(f.mant) == Pow2(f.size - 1)
    ensures f.Inf() >= 1
  {
    hide Pow2;
    Pow2Add(f.exp, f.mant);
    Distribute(Pow2(f.exp), 1, Pow2(f.mant));
    Pow2Mono(1, f.exp);
    OnePow();
    MulOrder(1, Pow2(f.exp) - 1, Pow2(f.mant));
  }

  lemma PackIs(f: Format, sign: bool, exp: nat, mant: nat)
    requires f.Valid() && exp <= f.ExpMask()
    ensures PackSf(f, sign, exp, mant) == Encode(f, sign, exp * Pow2(f.mant) + mant % Pow2(f.mant))
    ensures exp * Pow2(f.mant) + mant % Pow2(f.mant) < Pow2(f.size - 1)
  {
    hide BitOr;
    hide Pow2;
    var p, s := Pow2(f.mant), Pow2(f.size - 1);
    InfBound(f);
    MulOrder(exp, f.ExpMask(), p);
    MulMod(B2N(sign), s);
    BitOrDisjoint(B2N(sign) * s, exp * p, f.size - 1);
    Pow2Add(f.exp, f.mant);
    MulAssocMod(B2N(sign), Pow2(f.exp), exp, p);
    BitOrDisjoint(B2N(sign) * s + exp * p, mant % p, f.mant);
  }

  lemma MulAssocMod(b: nat, c: nat, e: nat, p: nat)
    requires p >= 1
    ensures (b * (c * p) + e * p) % p == 0
  {
    Distribute(b * c, e, p);
    MulAssoc(b, c, p);
    MulMod(b * c + e, p);
  }

  /** Reading back the fields of an encoding whose magnitude is `k`. */
  lemma FieldsOf(f: Format, a: nat)
    requires f.Valid() && IsWord(f, a)
    ensures a == Encode(f, SignOf(f, a), Magnitude(f, a))
    ensures Magnitude(f, a) < Pow2(f.size - 1)
    ensures Magnitude(f, a) == ExpOf(f, a) * Pow2(f.mant) + MantOf(f, a)
    ensures ExpOf(f, a) <= f.ExpMask() && MantOf(f, a) < Pow2(f.mant)
    ensures Magnitude(f, a) < f.Inf() <==> ExpOf(f, a) < f.ExpMask()
    ensures Magnitude(f, a) == f.Inf() <==> ExpOf(f, a) == f.ExpMask() && MantOf(f, a) == 0
  {
    hide Pow2;
    Pow2Add(1, f.size - 1);
    OnePow();
    SplitWord(a, Pow2(f.size - 1));
    Pow2Add(f.exp, f.mant);
    SplitFields(a, SignOf(f, a), Pow2(f.exp), Pow2(f.mant));
    InfBound(f);
    MulOrder(ExpOf(f, a) + 1, f.ExpMask(), Pow2(f.mant));
    Distribute(ExpOf(f, a), 1, Pow2(f.mant));
  }

  lemma EncodeIs(f: Format, sign: bool, k: nat)
    requires f.Valid() && k < Pow2(f.size - 1)
    ensures IsWord(f, Encode(f, sign, k))
    ensures SignOf(f, Encode(f, sign, k)) == sign
    ensures Magnitude(f, Encode(f, sign, k)) == k
  {
    hide Pow2;
    HalvePow(f.size);
    DivUnique(Encode(f, sign, k), Pow2(f.size - 1), B2N(sign), k);
  }

  lemma SplitWord(a: nat, s: nat)
    requires s >= 1 && a < 2 * s
    ensures a / s == B2N(a / s != 0)
    ensures a == B2N(a / s != 0) * s + a % s
  {
    DivMod(a, s);
    MulOrder(2, a / s, s);
    DivNonneg(a, s);
  }

  lemma SplitFields(a: nat, sign: bool, c: nat, p: nat)
    requires c >= 1 && p >= 1
    requires sign == (a / (c * p) != 0) && a < 2 * (c * p) && c * p >= 1
    ensures a % (c * p) == Rem(Quot(a, p), c) * p + a % p
  {
    var s := c * p;
    DivMod(a, s);
    DivMod(a, p);
    var k := a % s;
    SplitWord(a, s);
    DivMod(k, p);
    DivNonneg(k, p);
    // k = e * p + m with e < c
    var e, m := k / p, k % p;
    MulOrder(c, e, p);
    var b := B2N(a / s != 0);
    Distribute(b * c, e, p);
    MulAssoc(b, c, p);
    DivUnique(a, p, b * c + e, m);
    DivUnique(b * c + e, c, b, e);
  }

  // ---------- rounding an internal mantissa ----------

  /** The constant added before the guard bits are dropped (softfp_template.h:114-131). */
  function Addend(f: Format, rm: Mode, sign: bool): nat
    requires f.Valid()
  {
    match rm
    case RNE | RMM => Pow2(f.Rnd() - 1)
    case RTZ => 0
    case RDN | RUP => if sign != (rm == RUP) then Pow2(f.Rnd()) - 1 else 0
  }

  /** The rounded mantissa (softfp_template.h:152-155). */
  function RoundMant(f: Format, rm: Mode, sign: bool, m: nat): nat
    requires f.Valid()
  {
    var r := Shr(m + Addend(f, rm, sign), f.Rnd());
    if rm == RNE && Low(m, f.Rnd()) == Pow2(f.Rnd() - 1) then r - r % 2 else r
  }

  /** The same decision as `Up`, on the guard bits. */
  predicate UpBits(rm: Mode, sign: bool, q: nat, rem: nat, half: nat) {
    match rm
    case RNE => rem > half || (rem == half && q % 2 == 1)
    case RTZ => false
    case RDN => sign && rem != 0
    case RUP => !sign && rem != 0
    case RMM => rem >= half
  }

  lemma RoundMantIs(f: Format, rm: Mode, sign: bool, m: nat)
    requires f.Valid()
    ensures var q, rem := Quot(m, Pow2(f.Rnd())), Rem(m, Pow2(f.Rnd()));
      RoundMant(f, rm, sign, m) == q + B2N(UpBits(rm, sign, q, rem, Pow2(f.Rnd() - 1)))
  {
    hide Pow2;
    hide Quot;
    hide Rem;
    Pow2Add(1, f.Rnd() - 1);
    OnePow();
    AddShift(m, Addend(f, rm, sign), Pow2(f.Rnd()));
  }

  lemma AddShift(m: nat, d: nat, s: nat)
    requires d < s
    ensures Quot(m + d, s) == Quot(m, s) + B2N(Rem(m, s) + d >= s)
  {
    var q, rem := Quot(m, s), Rem(m, s);
    DivMod(m, s);
    Distribute(q, 1, s);
    if rem + d >= s {
      DivUnique(m + d, s, q + 1, rem + d - s);
    } else {
      DivUnique(m + d, s, q, rem + d);
    }
  }

  lemma RndSplit(f: Format, m: nat)
    requires f.Valid()
    ensures m == Quot(m, Pow2(f.Rnd())) * Pow2(f.Rnd()) + Rem(m, Pow2(f.Rnd()))
    ensures Pow2(f.Rnd()) == 2 * Pow2(f.Rnd() - 1)
    ensures Pow2(f.size - 2) == Pow2(f.mant) * Pow2(f.Rnd())
    ensures Pow2(f.size - 1) == 2 * Pow2(f.mant) * Pow2(f.Rnd())
  {
    DivMod(m, Pow2(f.Rnd()));
    Pow2Add(f.mant, f.Rnd());
    assert f.mant + f.Rnd() == f.size - 2;
    assert f.size - 2 >= 0;
    assert Pow2(f.size - 1) == 2 * Pow2(f.size - 2);
    MulAssoc(2, Pow2(f.mant), Pow2(f.Rnd()));
  }

  /** Rounding a mantissa that agrees with `x` at the decision points of exponent `e`
      rounds `x` on the grid, subnormals included. */
  lemma GridRound(f: Format, unbounded: bool, rm: Mode, sign: bool, x: Exact, e: int, m: nat)
    requires f.Valid() && m < Pow2(f.size - 1)
    requires m >= Pow2(f.size - 2) || (!unbounded && e == 1)
    requires unbounded || e >= 1
    requires Agrees(x, m, f.Rnd() - 1, e - f.Bias() - f.mant - 1)
    ensures var k := (e - 1) * Pow2(f.mant) + RoundMant(f, rm, sign, m);
      && RoundsTo(f, unbounded, rm, sign, x, k)
      && (unbounded || k >= 0)
      && (Cmp(x, Val(f, unbounded, k)) == 0 <==> Low(m, f.Rnd()) == 0)
    ensures m >= Pow2(f.size - 2) ==> RoundMant(f, rm, sign, m) >= Pow2(f.mant)
    ensures m < Pow2(f.size - 2) ==> RoundMant(f, rm, sign, m) <= Pow2(f.mant)
    ensures RoundMant(f, rm, sign, m) <= 2 * Pow2(f.mant)
  {
    hide Pow2;
    hide P2;
    hide Val;
    hide Cmp;
    hide Format.Bias;
    hide RoundMant;
    hide Quot;
    hide Rem;
    var s, half, p := Pow2(f.Rnd()), Pow2(f.Rnd() - 1), Pow2(f.mant);
    var q, rem := Quot(m, s), Rem(m, s);
    RndSplit(f, m);
    QuotBounds(q, rem, s, p, m);
    RoundMantIs(f, rm, sign, m);
    GridIndex(p, e, q);
    BracketSides(f, unbounded, x, e, q, rem, m);
    var lo := (e - 1) * p + q;
    ParityOf(f, e, q);
    assert RoundsFrom(f, unbounded, rm, sign, x, lo, lo + B2N(UpBits(rm, sign, q, rem, half)));
  }

  lemma QuotBounds(q: nat, rem: nat, s: nat, p: nat, m: nat)
    requires s >= 1 && rem < s && m == q * s + rem && m < 2 * p * s
    ensures q < 2 * p
    ensures m >= p * s ==> q >= p
    ensures m < p * s ==> q < p
  {
    MulOrder(2 * p, q, s);
    MulOrder(q + 1, p, s);
    MulOrder(p, q, s);
    Distribute(q, 1, s);
  }

  lemma ParityOf(f: Format, e: int, q: nat)
    requires f.Valid()
    ensures ((e - 1) * Pow2(f.mant) + q) % 2 == q % 2
  {
    var h := Pow2(f.mant - 1);
    EvenMul(e - 1, h);
    EvenPlus((e - 1) * (2 * h), q);
  }

  lemma EvenPlus(a: int, b: int)
    requires a % 2 == 0
    ensures (a + b) % 2 == b % 2
  {
  }

  /** Where `x` lies between the two neighbours of its mantissa. */
  lemma BracketSides(f: Format, unbounded: bool, x: Exact, e: int, q: nat, rem: nat, m: nat)
    requires f.Valid() && q < 2 * Pow2(f.mant)
    requires q >= Pow2(f.mant) || (!unbounded && e == 1)
    requires unbounded || e >= 1
    requires m == q * Pow2(f.Rnd()) + rem && rem < Pow2(f.Rnd())
    requires Agrees(x, m, f.Rnd() - 1, e - f.Bias() - f.mant - 1)
    ensures var lo := (e - 1) * Pow2(f.mant) + q;
      var vl, vh := Val(f, unbounded, lo), Val(f, unbounded, lo + 1);
      && Cmp(x, vl) == Sgn(rem)
      && Cmp(x, vh) == -1
      && Cmp(x, (vl + vh) / 2.0) == Sgn(rem - Pow2(f.Rnd() - 1))
  {
    hide Pow2;
    hide P2;
    hide Val;
    hide Cmp;
    hide Side;
    hide Agrees;
    hide Format.Bias;
    var g := e - f.Bias() - f.mant;
    var j, half, p := f.Rnd() - 1, Pow2(f.Rnd() - 1), Pow2(f.mant);
    RndSplit(f, m);
    ValGrid(f, unbounded, e, q);
    ValGrid(f, unbounded, e, q + 1);
    assert (e - 1) * p + (q + 1) == (e - 1) * p + q + 1;
    var lo := (e - 1) * p + q;
    P2Next(g - 1);
    HalfSteps(x, q, g, Val(f, unbounded, lo), Val(f, unbounded, lo + 1));
    AgreesUse(x, m, j, g - 1, 2 * q);
    AgreesUse(x, m, j, g - 1, 2 * q + 1);
    AgreesUse(x, m, j, g - 1, 2 * q + 2);
    HalfUnits(q, half, rem, m);
  }

  lemma AgreesUse(x: Exact, m: int, j: nat, g: int, c: nat)
    requires Agrees(x, m, j, g)
    ensures Side(x, c, g) == Sgn(m - c * Pow2(j))
  {
    assert AgreesAt(x, m, j, g, c);
  }

  lemma HalfUnits(q: nat, half: nat, rem: nat, m: nat)
    requires m == q * (2 * half) + rem && rem < 2 * half
    ensures Sgn(m - (2 * q) * half) == Sgn(rem)
    ensures Sgn(m - (2 * q + 1) * half) == Sgn(rem - half)
    ensures Sgn(m - (2 * q + 2) * half) == -1
  {
    MulAssoc(q, 2, half);
    Distribute(2 * q, 1, half);
    Distribute(2 * q, 2, half);
  }

  lemma HalfSteps(x: Exact, q: int, g: int, vl: real, vh: real)
    requires vl == q as real * P2(g) && vh == (q + 1) as real * P2(g)
    ensures Side(x, 2 * q, g - 1) == Cmp(x, vl)
    ensures Side(x, 2 * q + 2, g - 1) == Cmp(x, vh)
    ensures Side(x, 2 * q + 1, g - 1) == Cmp(x, (vl + vh) / 2.0)
  {
    hide P2;
    hide Cmp;
    hide Side;
    P2Next(g - 1);
    HalfReal(q, P2(g - 1), P2(g));
    SideIs(x, 2 * q, g - 1, vl);
    SideIs(x, 2 * q + 2, g - 1, vh);
    SideIs(x, 2 * q + 1, g - 1, (vl + vh) / 2.0);
  }

  lemma HalfReal(q: int, h: real, u: real)
    requires u == 2.0 * h
    ensures (2 * q) as real * h == q as real * u
    ensures (2 * q + 2) as real * h == (q + 1) as real * u
    ensures (2 * q + 1) as real * h == (q as real * u + (q + 1) as real * u) / 2.0
  {
    HalfDouble((2 * q) as real, q as real, h, u);
    HalfDouble((2 * q + 2) as real, (q + 1) as real, h, u);
    HalfMiddle((2 * q + 1) as real, q as real, (q + 1) as real, h, u);
  }

  lemma HalfDouble(a: real, r: real, h: real, u: real)
    requires a == 2.0 * r && u == 2.0 * h
    ensures a * h == r * u
  {
    Double(r, h, u);
    Double(h, r, a);
  }

  lemma HalfMiddle(a: real, r: real, s: real, h: real, u: real)
    requires a == 2.0 * r + 1.0 && s == r + 1.0 && u == 2.0 * h
    ensures a * h == (r * u + s * u) / 2.0
  {
    Double(r, h, u);
    Double(h, r, 2.0 * r);
    PlusOne(2.0 * r, a, h);
    PlusOne(r, s, u);
  }

  lemma PlusOne(r: real, s: real, u: real)
    requires s == r + 1.0
    ensures s * u == r * u + u
  {
  }

  /** A nonzero mantissa is tiny after rounding exactly when the condition of
      softfp_template.h:138-139 says so; from exponent 1 on nothing is tiny. */
  lemma TinyIff(f: Format, rm: Mode, sign: bool, x: Exact, e: int, m: nat)
    requires f.Valid() && Pow2(f.size - 2) <= m < Pow2(f.size - 1)
    requires Agrees(x, m, f.Rnd() - 1, e - f.Bias() - f.mant - 1)
    ensures Tiny(f, rm, sign, x) <==>
              e < 0 || (e == 0 && m + Addend(f, rm, sign) < Pow2(f.size - 1))
  {
    hide Pow2;
    hide Val;
    hide Cmp;
    hide RoundMant;
    hide Addend;
    hide RoundsTo;
    hide Agrees;
    hide Format.Bias;
    var k := (e - 1) * Pow2(f.mant) + RoundMant(f, rm, sign, m);
    GridRound(f, true, rm, sign, x, e, m);
    forall j: int | RoundsTo(f, true, rm, sign, x, j)
      ensures j == k
    {
      RoundsToUnique(f, true, rm, sign, x, j, k);
    }
    Distribute(e, 1, Pow2(f.mant));
    MulOrder(e, -1, Pow2(f.mant));
    MulOrder(1, e, Pow2(f.mant));
    CarryOut(f, rm, sign, m);
    assert Tiny(f, rm, sign, x) <==> k < Pow2(f.mant);
  }

  lemma CarryOut(f: Format, rm: Mode, sign: bool, m: nat)
    requires f.Valid()
    ensures RoundMant(f, rm, sign, m) < 2 * Pow2(f.mant) <==> m + Addend(f, rm, sign) < Pow2(f.size - 1)
  {
    hide Pow2;
    var s, t := Pow2(f.Rnd()), m + Addend(f, rm, sign);
    RndSplit(f, t);
    OnePow();
    MulOrder(2 * Pow2(f.mant), Quot(t, s), s);
    MulOrder(Quot(t, s) + 1, 2 * Pow2(f.mant), s);
    Distribute(Quot(t, s), 1, s);
    assert RoundMant(f, rm, sign, m) in {Quot(t, s), Quot(t, s) - Quot(t, s) % 2};
  }

  /** Adding the carry into the exponent field and packing yields magnitude number `k`. */
  lemma PackRounded(f: Format, sign: bool, e: nat, q: nat)
    requires f.Valid() && e >= 1 && q <= 2 * Pow2(f.mant) && (q >= Pow2(f.mant) || e == 1)
    ensures var k := (e - 1) * Pow2(f.mant) + q;
      var e' := e + Shr(q, f.mant + 1);
      && k >= 0
      && (q < Pow2(f.mant) ==> k < f.Inf() && PackSf(f, sign, 0, q) == Encode(f, sign, k))
      && (q >= Pow2(f.mant) ==>
            && (e' >= f.ExpMask() <==> k >= f.Inf())
            && (e' < f.ExpMask() ==> PackSf(f, sign, e', q) == Encode(f, sign, k)))
  {
    hide Pow2;
    hide PackSf;
    hide Encode;
    hide Format.ExpMask;
    var p := Pow2(f.mant);
    Pow2Add(1, f.mant);
    OnePow();
    InfAtLeast(f);
    CarryFields(p, e, q, f.ExpMask());
    if q < p {
      PackIs(f, sign, 0, q);
    } else {
      var e' := e + Shr(q, f.mant + 1);
      if e' < f.ExpMask() {
        PackIs(f, sign, e', q);
      }
    }
  }

  lemma CarryFields(p: nat, e: nat, q: nat, x: nat)
    requires p >= 1 && e >= 1 && q <= 2 * p && (q >= p || e == 1)
    ensures (e - 1) * p >= 0
    ensures q < p ==> q % p == q
    ensures q >= p ==> (e + q / (2 * p)) * p + q % p == (e - 1) * p + q
    ensures q >= p ==> ((e + q / (2 * p)) >= x <==> (e - 1) * p + q >= x * p)
  {
    MulOrder(0, e, p);
    Distribute(e, 1, p);
    if q < p {
      DivUnique(q, p, 0, q);
    } else if q < 2 * p {
      DivUnique(q, 2 * p, 0, q);
      DivUnique(q, p, 1, q - p);
      CarryInto(p, e, q - p, x);
    } else {
      DivUnique(q, 2 * p, 1, 0);
      DivUnique(q, p, 2, 0);
      CarryInto(p, e + 1, 0, x);
    }
  }

  lemma CarryInto(p: nat, e: nat, m: nat, x: nat)
    requires m < p
    ensures e * p + m >= x * p <==> e >= x
    ensures (e + 1) * p == e * p + p
  {
    MulOrder(x, e, p);
    MulOrder(e + 1, x, p);
    Distribute(e, 1, p);
  }

  lemma InfAtLeast(f: Format)
    requires f.Valid()
    ensures f.ExpMask() >= 7 && f.Inf() >= Pow2(f.mant)
  {
    hide Pow2;
    OnePow();
    Pow2Mono(3, f.exp);
    MulOrder(1, f.ExpMask(), Pow2(f.mant));
  }

  lemma PackLimits(f: Format, sign: bool)
    requires f.Valid()
    ensures PackSf(f, sign, f.ExpMask(), 0) == Encode(f, sign, f.Inf())
    ensures PackSf(f, sign, f.ExpMask() - 1, Pow2(f.mant) - 1) == Encode(f, sign, f.Inf() - 1)
  {
    hide Pow2;
    hide PackSf;
    hide Encode;
    InfAtLeast(f);
    PackIs(f, sign, f.ExpMask(), 0);
    ModSmall(0, Pow2(f.mant));
    PackIs(f, sign, f.ExpMask() - 1, Pow2(f.mant) - 1);
    ModSmall(Pow2(f.mant) - 1, Pow2(f.mant));
    Distribute(f.ExpMask(), 1, Pow2(f.mant));
  }

  /** A zero mantissa stands for exactly zero. */
  lemma ZeroDelivers(f: Format, rm: Mode, sign: bool, x: Exact, j: nat, g: int, before: set<Flag>)
    requires f.Valid() && Agrees(x, 0, j, g)
    ensures Delivers(f, rm, sign, x, before, before, Encode(f, sign, 0))
  {
    assert AgreesAt(x, 0, j, g, 0);
    assert Cmp(x, 0.0) == 0;
    InfAtLeast(f);
    ValNext(f, false, 0);
    assert Val(f, false, 0) == 0.0;
    CmpOrder(x, Val(f, false, 0), Val(f, false, 1));
    assert RoundsFrom(f, false, rm, sign, x, 0, 0) by {
      CmpOrder(x, 0.0, (Val(f, false, 0) + Val(f, false, 1)) / 2.0);
    }
    assert before == before + Raised(f, rm, sign, x, 0);
  }

  method RShiftRnd(f: Format, a: nat, d: nat) returns (r: nat)
    requires IsWord(f, a)
    ensures r == Jam(a, d)
  {
    r := a;
    JamZero(a);
    if d != 0 {
      if d >= f.size {
        Pow2Mono(f.size, d);
        JamAll(a, Pow2(d));
        r := B2N(r != 0);
      } else {
        r := BitOr(Shr(r, d), B2N(Low(r, d) != 0));
      }
    }
  }

  lemma JamAll(a: nat, p: nat)
    requires a < p
    ensures JamBy(a, p) == B2N(a != 0)
  {
    DivUnique(a, p, 0, a);
    StickyBit(0, a != 0);
  }

  /** The exponent and mantissa after the subnormal shift (softfp_template.h:140-146);
      zero counts as exponent 1, where it belongs. */
  function ShiftedExp(exp: int, mant: nat): nat {
    if exp <= 0 || mant == 0 then 1 else exp
  }

  function ShiftedMant(exp: int, mant: nat): nat {
    if exp <= 0 then Jam(mant, 1 - exp) else mant
  }

  /** The flags raised for magnitude number `k` when the shifted mantissa is `m`. */
  function PackFlags(f: Format, rm: Mode, sign: bool, exp: int, mant: nat, m: nat, k: nat): set<Flag>
    requires f.Valid()
  {
    (if exp <= 0 && (exp < 0 || mant + Addend(f, rm, sign) < Pow2(f.size - 1)) && Low(m, f.Rnd()) != 0
     then {UF} else {})
    + (if Low(m, f.Rnd()) != 0 then {NX} else {})
    + (if k >= f.Inf() then {OF, NX} else {})
  }

  /** Why round_pack_sf is right: the subnormal shift keeps every rounding decision, so
      the mantissa is rounded once, and the flags are those of section 7. */
  lemma RoundedDelivers(f: Format, rm: Mode, sign: bool, x: Exact, exp: int, mant: nat, before: set<Flag>)
    requires f.Valid() && mant < Pow2(f.size - 1) && (mant == 0 || mant >= Pow2(f.size - 2))
    requires Agrees(x, mant, f.Rnd() - 1, exp - f.Bias() - f.mant - 1)
    ensures var m := ShiftedMant(exp, mant);
      var q := RoundMant(f, rm, sign, m);
      var k := (ShiftedExp(exp, mant) - 1) * Pow2(f.mant) + q;
      && q <= 2 * Pow2(f.mant) && (q >= Pow2(f.mant) || ShiftedExp(exp, mant) == 1)
      && k >= 0
      && Delivers(f, rm, sign, x, before, before + PackFlags(f, rm, sign, exp, mant, m, k),
                  Encode(f, sign, Delivered(f, rm, sign, k)))
  {
    hide Pow2;
    hide P2;
    hide Val;
    hide Cmp;
    hide Agrees;
    hide RoundsTo;
    hide Tiny;
    hide Jam;
    hide RoundMant;
    hide Addend;
    hide Low;
    hide Format.Bias;
    hide Format.Inf;
    hide Encode;
    var m, e := ShiftedMant(exp, mant), ShiftedExp(exp, mant);
    var g := f.Bias() + f.mant + 1;
    InfAtLeast(f);
    if mant == 0 {
      ZeroRounds(f, rm, sign);
      if exp <= 0 {
        JamShrinks(f, 0, 1 - exp);
      }
      ZeroDelivers(f, rm, sign, x, f.Rnd() - 1, exp - g, before);
      assert before == before + PackFlags(f, rm, sign, exp, mant, m, 0);
    } else {
      if exp <= 0 {
        AgreesCoarser(x, mant, f.Rnd() - 1, exp - g, 1 - exp);
        AgreesJam(x, mant, f.Rnd() - 1, 1 - g, 1 - exp);
        JamShrinks(f, mant, 1 - exp);
        Pow2Mono(f.size - 2, f.size - 1);
      }
      GridRound(f, false, rm, sign, x, e, m);
      TinyIff(f, rm, sign, x, exp, mant);
      var k := (e - 1) * Pow2(f.mant) + RoundMant(f, rm, sign, m);
      assert before + PackFlags(f, rm, sign, exp, mant, m, k) == before + Raised(f, rm, sign, x, k) by {
        SmallNotOverflow(f, e, RoundMant(f, rm, sign, m));
      }
    }
  }

  lemma SmallNotOverflow(f: Format, e: nat, q: nat)
    requires f.Valid() && q <= 2 * Pow2(f.mant)
    ensures e == 1 ==> (e - 1) * Pow2(f.mant) + q < f.Inf()
  {
    hide Pow2;
    InfAtLeast(f);
    MulOrder(3, f.ExpMask(), Pow2(f.mant));
  }

  /** roundpack_sf: delivers the correctly rounded `x`, with exactly the flags IEEE 754
      prescribes added to the accrued ones. */
  method RoundPack(fcsr: Fcsr, f: Format, sign: bool, exp: int, mant: nat, rm: Mode, ghost x: Exact)
    returns (r: nat)
    requires f.Valid() && mant < Pow2(f.size - 1) && (mant == 0 || mant >= Pow2(f.size - 2))
    requires Agrees(x, mant, f.Rnd() - 1, exp - f.Bias() - f.mant - 1)
    modifies fcsr
    ensures Delivers(f, rm, sign, x, old(fcsr.raised), fcsr.raised, r)
  {
    hide Pow2;
    hide Agrees;
    hide Delivers;
    hide Jam;
    hide Low;
    hide Shr;
    hide Addend;
    hide Format.Bias;
    hide Format.Inf;
    hide PackSf;
    hide Encode;
    hide Format.ExpMask;
    hide OverflowsToInf;
    hide BitOr;
    var addend := Addend(f, rm, sign);
    var aExp, aMant := exp, mant;
    var rndBits: nat;
    assert IsWord(f, aMant) by { Pow2Mono(f.size - 1, f.size); }
    if aExp <= 0 {
      // below the normal range
      var isSubnormal := aExp < 0 || aMant + addend < Pow2(f.size - 1);
      var diff := 1 - aExp;
      aMant := RShiftRnd(f, aMant, diff);
      rndBits := Low(aMant, f.Rnd());
      if isSubnormal && rndBits != 0 {
        fcsr.raised := fcsr.raised + {UF};
      }
      aExp := 1;
    } else {
      rndBits := Low(aMant, f.Rnd());
    }
    ghost var m := ShiftedMant(exp, mant);
    if rndBits != 0 {
      fcsr.raised := fcsr.raised + {NX};
    }
    aMant := Shr(aMant + addend, f.Rnd());
    if rm == RNE && rndBits == Pow2(f.Rnd() - 1) {
      aMant := aMant - aMant % 2;
    }
    ghost var e, q := ShiftedExp(exp, mant), RoundMant(f, rm, sign, m);
    ghost var k := (e - 1) * Pow2(f.mant) + q;
    RoundedDelivers(f, rm, sign, x, exp, mant, old(fcsr.raised));
    PackRounded(f, sign, e, q);
    PackLimits(f, sign);
    InfAtLeast(f);
    ZeroStays(f, rm, sign, exp, mant);
    assert aMant == q && (mant != 0 ==> aExp == e);
    aExp := aExp + Shr(aMant, f.mant + 1);
    if aMant < Pow2(f.mant) {
      // no implicit bit left
      aExp := 0;
    } else if aExp >= f.ExpMask() {
      // above the largest finite number
      if addend == 0 {
        aExp := f.ExpMask() - 1;
        aMant := Pow2(f.mant) - 1;
      } else {
        aExp := f.ExpMask();
        aMant := 0;
      }
      fcsr.raised := fcsr.raised + {OF, NX};
    }
    assert fcsr.raised == old(fcsr.raised) + PackFlags(f, rm, sign, exp, mant, m, k);
    AddendZero(f, rm, sign);
    r := PackSf(f, sign, aExp, aMant);
  }

  lemma AddendZero(f: Format, rm: Mode, sign: bool)
    requires f.Valid()
    ensures Addend(f, rm, sign) == 0 <==> !OverflowsToInf(rm, sign)
  {
    hide Pow2;
    OnePow();
    Pow2Mono(1, f.Rnd());
  }

  lemma ZeroStays(f: Format, rm: Mode, sign: bool, exp: int, mant: nat)
    requires f.Valid()
    ensures mant == 0 ==> RoundMant(f, rm, sign, ShiftedMant(exp, mant)) == 0
  {
    hide Pow2;
    hide RoundMant;
    hide JamBy;
    ZeroRounds(f, rm, sign);
    if exp <= 0 {
      JamAll(0, Pow2(1 - exp));
    }
  }

  lemma ZeroRounds(f: Format, rm: Mode, sign: bool)
    requires f.Valid()
    ensures RoundMant(f, rm, sign, 0) == 0 && Low(0, f.Rnd()) == 0
  {
    hide Pow2;
    RoundMantIs(f, rm, sign, 0);
    DivUnique(0, Pow2(f.Rnd()), 0, 0);
    Pow2Mono(0, f.Rnd() - 1);
    OnePow();
  }

  lemma JamShrinks(f: Format, m: nat, d: nat)
    requires f.Valid() && m < Pow2(f.size - 1) && d >= 1
    ensures Jam(m, d) <= Pow2(f.size - 2)
    ensures m == 0 ==> Jam(m, d) == 0
  {
    hide Pow2;
    Pow2Mono(1, d);
    OnePow();
    Pow2Add(1, f.size - 2);
    HalveBound(m, Pow2(d), Pow2(f.size - 2));
    JamBounds(m, d);
    JamAll(0, Pow2(d));
    assert Jam(m, d) == JamBy(m, Pow2(d));
  }

  lemma HalveBound(m: nat, p: nat, h: nat)
    requires p >= 2 && m < 2 * h
    ensures m / p <= h - 1
  {
    DivMod(m, p);
    DivNonneg(m, p);
    if m / p > 0 {
      MulOrder(2, p, m / p);
    }
  }

  // ---------- normalisation ----------

  /** The exponent of one unit of an internal mantissa. */
  function Unit(f: Format, exp: int): int
    requires f.Valid()
  {
    exp - f.Bias() - (f.size - 2)
  }

  /** What callers of normalize_sf owe: the mantissa is the exact value, or it is inexact
      in a bit that normalisation leaves at least two places below the rounding point. */
  ghost predicate Ready(f: Format, x: Exact, exp: int, mant: nat)
    requires f.Valid()
  {
    || Equals(x, mant, Unit(f, exp))
    || (Agrees(x, mant, 1, Unit(f, exp) + 1) && mant >= Pow2(f.mant + 2))
  }

  lemma NormalizedAgrees(f: Format, x: Exact, exp: int, mant: nat, t: nat)
    requires f.Valid() && Ready(f, x, exp, mant)
    requires 0 < mant && mant * Pow2(t) < Pow2(f.size - 1)
    ensures Agrees(x, mant * Pow2(t), f.Rnd() - 1, exp - t - f.Bias() - f.mant - 1)
  {
    hide Pow2;
    hide Agrees;
    hide Side;
    hide Format.Bias;
    var e := Unit(f, exp);
    if Equals(x, mant, e) {
      EqualsScale(x, mant, t, e);
      EqualsAgrees(x, mant * Pow2(t), e - t);
      AgreesCoarser(x, mant * Pow2(t), 0, e - t, f.Rnd() - 1);
    } else {
      ShiftRoom(f.mant + 2, t, mant, f.size - 1);
      AgreesShl(x, mant, 1, e + 1, t);
      AgreesCoarser(x, mant * Pow2(t), 1 + t, e + 1, f.Rnd() - 2 - t);
    }
  }

  lemma ShiftRoom(a: nat, t: nat, m: nat, w: nat)
    requires m >= Pow2(a) && m * Pow2(t) < Pow2(w)
    ensures a + t < w
  {
    hide Pow2;
    Pow2Add(a, t);
    MulOrder(Pow2(a), m, Pow2(t));
    Pow2Mono(w, a + t);
  }

  lemma NormalTop(w: nat, m: nat)
    requires w >= 2 && 0 < m < Pow2(w - 1)
    ensures m < Pow2(w)
    ensures var t := Clz(w, m) - 1;
      0 <= t <= w - 2 && Pow2(w - 2) <= m * Pow2(t) < Pow2(w - 1) && Shl(w, m, t) == m * Pow2(t)
  {
    hide *;
    Pow2Mono(w - 1, w);
    ClzTop(w, m);
    var l := w - Clz(w, m);
    Pow2Mono(w - 1, l - 1);
    TopShift(w - 1, l, m);
    ShlSmall(w, m, w - 1 - l);
  }

  lemma ShlSmall(w: nat, m: nat, t: nat)
    requires m * Pow2(t) < Pow2(w)
    ensures Shl(w, m, t) == m * Pow2(t)
  {
    hide Pow2;
    ModSmall(m * Pow2(t), Pow2(w));
  }

  lemma TopShift(w: nat, l: nat, m: nat)
    requires 1 <= l <= w && Pow2(l - 1) <= m < Pow2(l)
    ensures Pow2(w - 1) <= m * Pow2(w - l) < Pow2(w)
  {
    hide Pow2;
    var t := w - l;
    Pow2Add(l - 1, t);
    Pow2Add(l, t);
    MulOrder(Pow2(l - 1), m, Pow2(t));
    MulOrder(m, Pow2(l), Pow2(t));
  }

  lemma ClzZero(w: nat)
    ensures 0 < Pow2(w) && Clz(w, 0) == w
  {
  }

  /** normalize_sf. */
  method NormalizeSf(fcsr: Fcsr, f: Format, sign: bool, exp: int, mant: nat, rm: Mode, ghost x: Exact)
    returns (r: nat)
    requires f.Valid() && mant < Pow2(f.size - 1)
    requires Ready(f, x, exp, mant)
    modifies fcsr
    ensures Delivers(f, rm, sign, x, old(fcsr.raised), fcsr.raised, r)
  {
    hide Pow2;
    hide Delivers;
    hide Format.Bias;
    hide Clz;
    hide Shl;
    assert mant < Pow2(f.size) by { Pow2Mono(f.size - 1, f.size); }
    ClzZero(f.size);
    if mant > 0 {
      NormalTop(f.size, mant);
    }
    var shift := Clz(f.size, mant) - (f.size - 1 - (f.size - 2));
    assert shift >= 0;
    var aExp := exp - shift;
    var aMant := Shl(f.size, mant, shift);
    if mant == 0 {
      ShlZero(f.size, shift);
      ReadyZero(f, x, exp);
      ZeroAgrees(x, Unit(f, exp), f.Rnd() - 1, aExp - f.Bias() - f.mant - 1);
    } else {
      NormalizedAgrees(f, x, exp, mant, shift);
    }
    r := RoundPack(fcsr, f, sign, aExp, aMant, rm, x);
  }

  lemma ShlZero(w: nat, t: nat)
    ensures Shl(w, 0, t) == 0
  {
    DivUnique(0, Pow2(w), 0, 0);
  }

  lemma ReadyZero(f: Format, x: Exact, exp: int)
    requires f.Valid() && Ready(f, x, exp, 0)
    ensures Equals(x, 0, Unit(f, exp))
  {
    hide Pow2;
  }

  /** What callers of normalize2_sf owe: the double-word mantissa is exact, or it agrees
      with the exact value on all but its lowest bits and its top word is nearly full. */
  ghost predicate Ready2(f: Format, x: Exact, exp: int, mant: nat)
    requires f.Valid()
  {
    var e := Unit(f, exp) - f.size;
    || Equals(x, mant, e)
    || (Agrees(x, mant, f.size - 3, e + f.size - 3) && mant >= Pow2(2 * f.size - 4))
  }

  lemma Normalized2Agrees(f: Format, x: Exact, exp: int, mant: nat, t: nat)
    requires f.Valid() && Ready2(f, x, exp, mant)
    requires 0 < mant && mant * Pow2(t) < Pow2(2 * f.size - 1)
    ensures Agrees(x, Jam(mant * Pow2(t), f.size), f.Rnd() - 1, exp - t - f.Bias() - f.mant - 1)
  {
    hide Pow2;
    hide Agrees;
    hide Side;
    hide Jam;
    hide Format.Bias;
    var e := Unit(f, exp) - f.size;
    var m := mant * Pow2(t);
    var j := f.Rnd() - 1 + f.size;
    if Equals(x, mant, e) {
      EqualsScale(x, mant, t, e);
      EqualsAgrees(x, m, e - t);
      AgreesCoarser(x, m, 0, e - t, j);
    } else {
      ShiftRoom(2 * f.size - 4, t, mant, 2 * f.size - 1);
      AgreesShl(x, mant, f.size - 3, e + f.size - 3, t);
      AgreesCoarser(x, m, f.size - 3 + t, e + f.size - 3, j - (f.size - 3 + t));
    }
    AgreesJam(x, m, f.Rnd() - 1, e - t + j, f.size);
  }

  /** The two words of `(m1 * 2^w + m0) << t` for `t` below a word. */
  lemma DoubleShl(w: nat, m1: nat, m0: nat, t: nat)
    requires m0 < Pow2(w) && t < w && m1 * Pow2(t) < Pow2(w)
    ensures var hi := BitOr(Shl(w, m1, t), Shr(m0, w - t));
      var lo := Shl(w, m0, t);
      && (m1 * Pow2(w) + m0) * Pow2(t) == hi * Pow2(w) + lo
      && lo < Pow2(w)
  {
    hide Pow2;
    hide BitOr;
    Pow2Add(w - t, t);
    ModSmall(m1 * Pow2(t), Pow2(w));
    MulMod(m1, Pow2(t));
    assert Shl(w, m1, t) == m1 * Pow2(t) && Shl(w, m0, t) == Rem(m0 * Pow2(t), Pow2(w));
    hide Shl;
    hide Rem;
    ShiftOut(m0, Pow2(w - t), Pow2(t));
    BitOrDisjoint(m1 * Pow2(t), Quot(m0, Pow2(w - t)), t);
    ShiftBoth(m1, m0, Pow2(w), Pow2(t), Quot(m0, Pow2(w - t)), Rem(m0 * Pow2(t), Pow2(w)));
  }

  lemma ShiftBoth(m1: nat, m0: nat, p: nat, s: nat, q: nat, r: nat)
    requires m0 * s == q * p + r
    ensures (m1 * p + m0) * s == (m1 * s + q) * p + r
  {
    Distribute(m1 * p, m0, s);
    Distribute(m1 * s, q, p);
    MulAssoc(m1, p, s);
    MulAssoc(m1, s, p);
  }

  /** Shifting a word left by `s` splits it into the bits that leave and the bits that stay. */
  lemma ShiftOut(m: nat, h: nat, s: nat)
    requires h >= 1 && s >= 1 && m < h * s
    ensures m / h < s
    ensures m * s == (m / h) * (h * s) + (m * s) % (h * s)
  {
    DivMod(m, h);
    var q, r := m / h, m % h;
    DivNonneg(m, h);
    MulOrder(s, q, h);
    MulOrder(r, h, s);
    if r < h {
      MulOrder(r, h, s);
    }
    Distribute(q * h, r, s);
    MulAssoc(q, h, s);
    DivUnique(m * s, h * s, q, r * s);
  }

  /** normalize2_sf: the same for the double-word mantissa `mant1 * 2^size + mant0`. */
  method Normalize2Sf(fcsr: Fcsr, f: Format, sign: bool, exp: int, mant1: nat, mant0: nat, rm: Mode,
                      ghost x: Exact)
    returns (r: nat)
    requires f.Valid() && mant1 < Pow2(f.size - 1) && mant0 < Pow2(f.size)
    requires Ready2(f, x, exp, mant1 * Pow2(f.size) + mant0)
    modifies fcsr
    ensures Delivers(f, rm, sign, x, old(fcsr.raised), fcsr.raised, r)
  {
    hide Pow2;
    hide Delivers;
    hide Format.Bias;
    hide Clz;
    hide Shl;
    hide Shr;
    hide BitOr;
    hide Agrees;
    hide Ready2;
    var w := f.size;
    assert mant1 < Pow2(w) by { Pow2Mono(w - 1, w); }
    DoubleReady(f, x, exp, mant1, mant0);
    var aExp, aMant1, aMant0 := exp, mant1, mant0;
    var l: nat;
    if aMant1 == 0 {
      l := w + Clz(w, aMant0);
    } else {
      l := Clz(w, aMant1);
    }
    var shift := l - (w - 1 - (w - 2));
    assert shift >= 0;
    aExp := aExp - shift;
    if shift == 0 {
      aMant1 := BitOr(aMant1, B2N(aMant0 != 0));
    } else if shift < w {
      aMant1 := BitOr(Shl(w, aMant1, shift), Shr(aMant0, w - shift));
      aMant0 := Shl(w, aMant0, shift);
      aMant1 := BitOr(aMant1, B2N(aMant0 != 0));
    } else {
      aMant1 := Shl(w, aMant0, shift - w);
    }
    r := RoundPack(fcsr, f, sign, aExp, aMant1, rm, x);
  }

  /** The shift distance and the resulting high word of normalize2_sf. */
  function DoubleShift(w: nat, m1: nat, m0: nat): int
    requires m1 < Pow2(w) && m0 < Pow2(w)
  {
    (if m1 == 0 then w + Clz(w, m0) else Clz(w, m1)) - 1
  }

  function DoubleHigh(w: nat, m1: nat, m0: nat, t: nat): nat {
    if t == 0 then BitOr(m1, B2N(m0 != 0))
    else if t < w then BitOr(BitOr(Shl(w, m1, t), Shr(m0, w - t)), B2N(Shl(w, m0, t) != 0))
    else Shl(w, m0, t - w)
  }

  lemma DoubleReady(f: Format, x: Exact, exp: int, m1: nat, m0: nat)
    requires f.Valid() && m1 < Pow2(f.size - 1) && m0 < Pow2(f.size)
    requires Ready2(f, x, exp, m1 * Pow2(f.size) + m0)
    ensures m1 < Pow2(f.size)
    ensures var t := DoubleShift(f.size, m1, m0);
      && t >= 0
      && var h := DoubleHigh(f.size, m1, m0, t);
      && h < Pow2(f.size - 1) && (h == 0 || h >= Pow2(f.size - 2))
      && Agrees(x, h, f.Rnd() - 1, exp - t - f.Bias() - f.mant - 1)
  {
    hide Pow2;
    hide Format.Bias;
    hide DoubleHigh;
    hide DoubleShift;
    hide Agrees;
    hide Ready2;
    hide Jam;
    var w := f.size;
    var m := m1 * Pow2(w) + m0;
    Pow2Mono(w - 1, w);
    var t := DoubleShift(w, m1, m0);
    if m == 0 {
      DoubleZero(w, m1, m0);
      Pow2Mono(0, w - 1);
      Ready2Zero(f, x, exp);
      ZeroAgrees(x, Unit(f, exp) - w, f.Rnd() - 1, exp - t - f.Bias() - f.mant - 1);
    } else {
      DoubleTop(w, m1, m0);
      DoubleHighIs(w, m1, m0, t, m);
      Normalized2Agrees(f, x, exp, m, t);
      JamTop(w, m * Pow2(t));
    }
  }

  lemma DoubleZero(w: nat, m1: nat, m0: nat)
    requires w >= 2 && m1 * Pow2(w) + m0 == 0
    ensures m1 < Pow2(w) && m0 < Pow2(w)
    ensures DoubleShift(w, m1, m0) == 2 * w - 1 && DoubleHigh(w, m1, m0, 2 * w - 1) == 0
  {
    hide Pow2;
    if m1 > 0 {
      MulOrder(1, m1, Pow2(w));
    }
    ClzZero(w);
    ShlZero(w, w - 1);
  }

  lemma DoubleHighIs(w: nat, m1: nat, m0: nat, t: nat, m: nat)
    requires w >= 2 && m1 < Pow2(w - 1) && m0 < Pow2(w) && m == m1 * Pow2(w) + m0
    requires (m1 > 0 ==> t < w) && t <= 2 * w - 2 && m * Pow2(t) < Pow2(2 * w - 1)
    ensures DoubleHigh(w, m1, m0, t) == Jam(m * Pow2(t), w)
  {
    hide Pow2;
    hide Jam;
    hide Shl;
    hide Shr;
    hide BitOr;
    if t == 0 {
      OnePow();
      JamDouble(w, m1, m0, m, 0);
    } else if t < w {
      HighFits(w, m1, m0, t);
      DoubleShl(w, m1, m0, t);
      JamDouble(w, BitOr(Shl(w, m1, t), Shr(m0, w - t)), Shl(w, m0, t), m, t);
    } else {
      LowOnly(w, m0, t, m);
    }
  }

  lemma Ready2Zero(f: Format, x: Exact, exp: int)
    requires f.Valid() && Ready2(f, x, exp, 0)
    ensures Equals(x, 0, Unit(f, exp) - f.size)
  {
    hide Pow2;
  }

  /** The leading-zero count of a double word brings its top bit to position `2w - 2`. */
  lemma DoubleTop(w: nat, m1: nat, m0: nat)
    requires w >= 2 && m1 < Pow2(w - 1) && m0 < Pow2(w) && m1 * Pow2(w) + m0 > 0
    ensures m1 < Pow2(w)
    ensures var t := DoubleShift(w, m1, m0);
      && 0 <= t <= 2 * w - 2 && (m1 > 0 ==> t < w)
      && Pow2(2 * w - 2) <= (m1 * Pow2(w) + m0) * Pow2(t) < Pow2(2 * w - 1)
  {
    hide Pow2;
    hide Clz;
    Pow2Mono(w - 1, w);
    if m1 == 0 {
      LowTop(w, m0);
    } else {
      ClzTop(w, m1);
      HighTop(w, m1, m0, w - Clz(w, m1));
    }
  }

  lemma LowTop(w: nat, m0: nat)
    requires w >= 1 && 0 < m0 < Pow2(w)
    ensures Clz(w, m0) < w
    ensures Pow2(2 * w - 2) <= m0 * Pow2(w + Clz(w, m0) - 1) < Pow2(2 * w - 1)
  {
    hide Pow2;
    hide Clz;
    ClzTop(w, m0);
    TopShift(2 * w - 1, w - Clz(w, m0), m0);
  }

  lemma HighTop(w: nat, m1: nat, m0: nat, l: nat)
    requires 1 <= l <= w && Pow2(l - 1) <= m1 < Pow2(l) && m1 < Pow2(w - 1) && m0 < Pow2(w)
    ensures l <= w - 1
    ensures Pow2(2 * w - 2) <= (m1 * Pow2(w) + m0) * Pow2(w - 1 - l) < Pow2(2 * w - 1)
  {
    hide Pow2;
    Pow2Mono(w - 1, l - 1);
    Pow2Add(l - 1, w);
    Pow2Add(l, w);
    MulOrder(Pow2(l - 1), m1, Pow2(w));
    MulOrder(m1 + 1, Pow2(l), Pow2(w));
    Distribute(m1, 1, Pow2(w));
    TopShift(2 * w - 1, l + w, m1 * Pow2(w) + m0);
  }

  lemma HighFits(w: nat, m1: nat, m0: nat, t: nat)
    requires 0 < t < w && m1 < Pow2(w - 1) && m0 < Pow2(w)
    requires (m1 * Pow2(w) + m0) * Pow2(t) < Pow2(2 * w - 1) || m1 == 0
    ensures m1 * Pow2(t) < Pow2(w)
  {
    hide Pow2;
    Pow2Add(w, w - 1);
    Pow2Mono(w - 1, w);
    if m1 == 0 {
    } else {
      ProductFits(m1, m0, Pow2(w), Pow2(t), Pow2(w - 1));
    }
  }

  lemma ProductFits(m1: nat, m0: nat, p: nat, s: nat, h: nat)
    requires p >= 1 && (m1 * p + m0) * s < p * h
    ensures m1 * s < h
  {
    Distribute(m1 * p, m0, s);
    MulAssoc(m1, p, s);
    MulAssoc(m1, s, p);
    MulOrder(h, m1 * s, p);
    assert m0 * s >= 0;
  }

  lemma JamDouble(w: nat, hi: nat, lo: nat, m: nat, t: nat)
    requires lo < Pow2(w) && m * Pow2(t) == hi * Pow2(w) + lo
    ensures BitOr(hi, B2N(lo != 0)) == Jam(m * Pow2(t), w)
  {
    hide Pow2;
    hide BitOr;
    DivUnique(m * Pow2(t), Pow2(w), hi, lo);
  }

  lemma LowOnly(w: nat, m0: nat, t: nat, m: nat)
    requires w <= t <= 2 * w - 2 && m == m0 && m * Pow2(t) < Pow2(2 * w - 1)
    ensures Shl(w, m0, t - w) == Jam(m * Pow2(t), w)
  {
    hide Pow2;
    hide BitOr;
    Pow2Add(t - w, w);
    MulAssoc(m0, Pow2(t - w), Pow2(w));
    var h := m0 * Pow2(t - w);
    DivUnique(m0 * Pow2(t), Pow2(w), h, 0);
    StickyBit(h, false);
    Pow2Add(w - 1, w);
    MulOrder(Pow2(w - 1), h, Pow2(w));
    Pow2Mono(w - 1, w);
    ShlSmall(w, m0, t - w);
  }

  lemma JamTop(w: nat, m: nat)
    requires w >= 2 && Pow2(2 * w - 2) <= m < Pow2(2 * w - 1)
    ensures Pow2(w - 2) <= Jam(m, w) < Pow2(w - 1)
  {
    hide Pow2;
    hide JamBy;
    Pow2Add(w - 2, w);
    Pow2Add(w - 1, w);
    Pow2Add(1, w - 2);
    OnePow();
    JamRange(m, Pow2(w), Pow2(w - 2));
  }

  lemma JamRange(m: nat, p: nat, h: nat)
    requires p >= 1 && h * p <= m < (2 * h) * p
    ensures h <= JamBy(m, p) < 2 * h
  {
    hide BitOr;
    var q, r := Quot(m, p), Rem(m, p);
    DivMod(m, p);
    MulOrder(q + 1, h, p);
    MulOrder(2 * h, q, p);
    Distribute(q, 1, p);
    StickyBit(q, r != 0);
  }
}
