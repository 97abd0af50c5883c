/** What correct rounding means (IEEE 754-2019 section 4.3, with the flags of
    sections 7.4 to 7.6), stated over real numbers and without reference to any
    algorithm. Finite magnitudes are numbered in increasing order by their own
    encoding without the sign bit. */
module Ieee {
  import opened Bits

  // ---------- real powers of two ----------

  function P2(e: int): (r: real)
    ensures r > 0.0
    decreases if e < 0 then -e else e
  {
    if e == 0 then 1.0 else if e > 0 then 2.0 * P2(e - 1) else P2(e + 1) / 2.0
  }

  lemma P2Next(e: int)
    ensures P2(e + 1) == 2.0 * P2(e)
  {
  }

  lemma {:induction false} P2AddNat(a: int, n: nat)
    ensures P2(a + n) == P2(a) * Pow2(n) as real
    decreases n
  {
    hide P2;
    if n > 0 {
      P2AddNat(a, n - 1);
      assert a + (n - 1) + 1 == a + n;
      P2Next(a + (n - 1));
      Double(P2(a), Pow2(n - 1) as real, Pow2(n) as real);
    }
  }

  lemma Double(x: real, y: real, z: real)
    requires z == 2.0 * y
    ensures x * z == 2.0 * (x * y)
  {
  }

  lemma P2Nat(n: nat)
    ensures P2(n) == Pow2(n) as real
  {
    P2AddNat(0, n);
  }

  lemma P2Neg(n: int)
    requires n >= 0
    ensures P2(-n) * Pow2(n) as real == 1.0
  {
    P2AddNat(-n, n);
  }

  lemma P2Add(a: int, b: int)
    ensures P2(a + b) == P2(a) * P2(b)
  {
    hide *;
    if b >= 0 {
      P2AddNat(a, b);
      P2Nat(b);
    } else {
      P2AddNeg(a, -b);
    }
  }

  lemma P2AddNeg(a: int, n: int)
    requires n >= 0
    ensures P2(a - n) == P2(a) * P2(-n)
  {
    hide *;
    P2AddNat(a - n, n);
    P2Neg(n);
    ScaleCancel(P2(a - n), P2(a), P2(-n), Pow2(n) as real);
  }

  lemma ScaleCancel(x: real, y: real, z: real, p: real)
    requires x * p == y && z * p == 1.0
    ensures x == y * z
  {
    assert x * (z * p) == (x * p) * z;
  }

  // ---------- exact results ----------

  /** The exact result of an operation: a number, or the non-negative square root of one. */
  datatype Exact = Num(v: real) | Sqrt(v: real)

  /** The sign of `x - r`. A square root is compared by squaring. */
  function Cmp(x: Exact, r: real): int {
    match x
    case Num(v) => if r < v then 1 else if r == v then 0 else -1
    case Sqrt(v) => if r < 0.0 || r * r < v then 1 else if r * r == v then 0 else -1
  }

  lemma RealOrder(a: real, b: real, c: real)
    ensures c >= 0.0 && a <= b ==> a * c <= b * c
    ensures c > 0.0 && a < b ==> a * c < b * c
  {
  }

  lemma SquareOrder(r: real, s: real)
    requires 0.0 <= r < s
    ensures r * r < s * s
  {
    var d := s - r;
    assert s * s == r * r + 2.0 * (r * d) + d * d;
    assert r * d >= 0.0;
    assert d * d > 0.0;
  }

  lemma CmpOrder(x: Exact, r: real, s: real)
    ensures r < s && Cmp(x, s) >= 0 ==> Cmp(x, r) == 1
    ensures r < s && Cmp(x, r) <= 0 ==> Cmp(x, s) == -1
  {
    if x.Sqrt? && 0.0 <= r < s {
      SquareOrder(r, s);
    }
  }

  // ---------- formats ----------

  datatype Mode = RNE | RTZ | RDN | RUP | RMM
  datatype Flag = NV | DZ | OF | UF | NX

  /** One instantiation of the template: word size, mantissa and exponent field
      widths, and whether a double-width integer type (`F_ULONG`) exists. */
  datatype Format = Format(size: nat, mant: nat, exp: nat, hasULong: bool) {
    ghost predicate Valid() {
      size == 1 + exp + mant && exp >= 5 && mant >= exp && size % 2 == 0
    }

    function Bias(): (b: nat)
      requires exp >= 1
    {
      Pow2(exp - 1) - 1
    }

    function ExpMask(): (m: nat)
      requires exp >= 1
    {
      Pow2(exp) - 1
    }

    /** RND_SIZE: guard bits below the mantissa in the internal format. */
    function Rnd(): int {
      size - 2 - mant
    }

    /** The encoding of infinity, which also numbers the first magnitude that overflows. */
    function Inf(): (i: nat)
      requires exp >= 1
    {
      ExpMask() * Pow2(mant)
    }

    function QNaN(): nat
      requires exp >= 1 && mant >= 1
    {
      Inf() + Pow2(mant - 1)
    }
  }

  const SF32 := Format(32, 23, 8, true)
  const SF64 := Format(64, 52, 11, true)
  const SF128 := Format(128, 112, 15, false)

  // ---------- values ----------

  /** The value of magnitude number `k`. With `unbounded` the exponent has no
      lower limit, so there are no subnormals and `k` may be negative; in both
      cases numbers from `Inf` on continue past the largest finite value. */
  ghost function Val(f: Format, unbounded: bool, k: int): real
    requires f.Valid()
  {
    if !unbounded && k < Pow2(f.mant) then
      k as real * P2(1 - f.Bias() - f.mant)
    else
      (Pow2(f.mant) + k % Pow2(f.mant)) as real * P2(k / Pow2(f.mant) - f.Bias() - f.mant)
  }

  /** Magnitude `q * 2^(e - bias - mant)` is number `(e - 1) * 2^mant + q`, also when
      `q` has just carried into the next binade and, for `e == 1`, when it is subnormal. */
  lemma ValGrid(f: Format, unbounded: bool, e: int, q: nat)
    requires f.Valid() && q <= 2 * Pow2(f.mant)
    requires q >= Pow2(f.mant) || (!unbounded && e == 1)
    requires unbounded || e >= 1
    ensures Val(f, unbounded, (e - 1) * Pow2(f.mant) + q) == q as real * P2(e - f.Bias() - f.mant)
  {
    hide P2;
    hide Pow2;
    hide Format.Bias;
    var p := Pow2(f.mant);
    GridIndex(p, e, q);
    if q == 2 * p {
      P2Next(e - f.Bias() - f.mant);
    }
  }

  lemma ValGridAt(f: Format, unbounded: bool, e: int, q: nat, k: int)
    requires f.Valid() && q <= 2 * Pow2(f.mant)
    requires q >= Pow2(f.mant) || (!unbounded && e == 1)
    requires unbounded || e >= 1
    requires k == (e - 1) * Pow2(f.mant) + q
    ensures Val(f, unbounded, k) == q as real * P2(e - f.Bias() - f.mant)
  {
    hide *;
    ValGrid(f, unbounded, e, q);
  }

  /** Splitting a magnitude number back into exponent and mantissa fields. */
  lemma GridIndex(p: nat, e: int, q: nat)
    requires p >= 1 && q <= 2 * p
    ensures p <= q < 2 * p ==> ((e - 1) * p + q) / p == e && ((e - 1) * p + q) % p == q - p
    ensures q == 2 * p ==> ((e - 1) * p + q) / p == e + 1 && ((e - 1) * p + q) % p == 0
    ensures e >= 1 ==> (e - 1) * p >= 0
    ensures e >= 2 ==> (e - 1) * p >= p
  {
    Distribute(e, 1, p);
    MulOrder(1, e, p);
    MulOrder(2, e, p);
    if p <= q < 2 * p {
      DivUnique((e - 1) * p + q, p, e, q - p);
    }
    if q == 2 * p {
      Distribute(e, 1, p);
      DivUnique((e - 1) * p + q, p, e + 1, 0);
    }
  }

  lemma ValStep(f: Format, unbounded: bool, e: int, q: nat)
    requires f.Valid() && q < 2 * Pow2(f.mant)
    requires q >= Pow2(f.mant) || (!unbounded && e == 1)
    requires unbounded || e >= 1
    ensures var k := (e - 1) * Pow2(f.mant) + q;
      && Val(f, unbounded, k) < Val(f, unbounded, k + 1)
      && Val(f, unbounded, k) >= 0.0
      && (unbounded ==> Val(f, unbounded, k) > 0.0)
  {
    hide Val;
    hide P2;
    hide Pow2;
    ValGrid(f, unbounded, e, q);
    ValGrid(f, unbounded, e, q + 1);
    RealStep(q, P2(e - f.Bias() - f.mant));
    assert (e - 1) * Pow2(f.mant) + (q + 1) == (e - 1) * Pow2(f.mant) + q + 1;
  }

  lemma ValNext(f: Format, unbounded: bool, k: int)
    requires f.Valid()
    requires unbounded || k >= 0
    ensures Val(f, unbounded, k) < Val(f, unbounded, k + 1)
    ensures unbounded || Val(f, unbounded, k) >= 0.0
    ensures unbounded ==> Val(f, unbounded, k) > 0.0
  {
    hide Val;
    hide Pow2;
    var p := Pow2(f.mant);
    if !unbounded && k < p {
      ValStep(f, unbounded, 1, k);
    } else {
      var e, m := k / p, k % p;
      assert k == e * p + m;
      MulOrder(e, 0, p);
      Distribute(e, 1, p);
      ValStep(f, unbounded, e, p + m);
    }
  }

  lemma RealStep(n: nat, u: real)
    requires u > 0.0
    ensures n as real * u >= 0.0
    ensures n > 0 ==> n as real * u > 0.0
    ensures (n + 1) as real * u == n as real * u + u
  {
  }

  lemma {:induction false} ValMono(f: Format, unbounded: bool, j: int, k: int)
    requires f.Valid() && (unbounded || j >= 0)
    ensures j < k ==> Val(f, unbounded, j) < Val(f, unbounded, k)
    ensures j <= k ==> Val(f, unbounded, j) <= Val(f, unbounded, k)
    decreases k - j
  {
    if j < k {
      ValNext(f, unbounded, k - 1);
      ValMono(f, unbounded, j, k - 1);
    }
  }

  // ---------- rounding ----------

  ghost predicate Between(x: Exact, lo: real, hi: real) {
    Cmp(x, lo) >= 0 && Cmp(x, hi) < 0
  }

  /** Does magnitude `x`, lying in `[lo, hi)` with neighbours `lo` and `hi`, round to `hi`?
      `odd` says that the encoding of `lo` is odd. */
  ghost predicate Up(rm: Mode, sign: bool, x: Exact, lo: real, hi: real, odd: bool) {
    var half := Cmp(x, (lo + hi) / 2.0);
    match rm
    case RNE => half > 0 || (half == 0 && odd)
    case RTZ => false
    case RDN => sign && Cmp(x, lo) != 0
    case RUP => !sign && Cmp(x, lo) != 0
    case RMM => half >= 0
  }

  /** Magnitude `x` of a number with sign `sign` rounds to magnitude number `k`. */
  ghost predicate RoundsTo(f: Format, unbounded: bool, rm: Mode, sign: bool, x: Exact, k: int)
    requires f.Valid()
  {
    || RoundsFrom(f, unbounded, rm, sign, x, k, k)
    || RoundsFrom(f, unbounded, rm, sign, x, k - 1, k)
  }

  ghost predicate RoundsFrom(f: Format, unbounded: bool, rm: Mode, sign: bool, x: Exact, lo: int, k: int)
    requires f.Valid()
  {
    && (unbounded || lo >= 0)
    && Between(x, Val(f, unbounded, lo), Val(f, unbounded, lo + 1))
    && k == lo + B2N(Up(rm, sign, x, Val(f, unbounded, lo), Val(f, unbounded, lo + 1), lo % 2 != 0))
  }

  /** Tiny after rounding: with no lower exponent limit the result would still be
      below the smallest normal number. */
  ghost predicate Tiny(f: Format, rm: Mode, sign: bool, x: Exact)
    requires f.Valid()
  {
    exists k: int :: k < Pow2(f.mant) && RoundsTo(f, true, rm, sign, x, k)
  }

  /** Does an overflowing result become infinity rather than the largest finite number? */
  predicate OverflowsToInf(rm: Mode, sign: bool) {
    match rm
    case RNE | RMM => true
    case RTZ => false
    case RDN => sign
    case RUP => !sign
  }

  function Encode(f: Format, sign: bool, k: nat): nat
    requires f.size >= 1
  {
    B2N(sign) * Pow2(f.size - 1) + k
  }

  /** The flags IEEE 754 raises when `x` is delivered as magnitude number `k`. */
  ghost function Raised(f: Format, rm: Mode, sign: bool, x: Exact, k: nat): set<Flag>
    requires f.Valid()
  {
    if k >= f.Inf() then {OF, NX}
    else if Cmp(x, Val(f, false, k)) == 0 then {}
    else if Tiny(f, rm, sign, x) then {UF, NX}
    else {NX}
  }

  /** `r` is the correctly rounded encoding of `x` with sign `sign`, and the accrued
      flags went from `before` to `after`. */
  ghost predicate Delivers(f: Format, rm: Mode, sign: bool, x: Exact,
                           before: set<Flag>, after: set<Flag>, r: nat)
    requires f.Valid()
  {
    exists k: nat ::
      && RoundsTo(f, false, rm, sign, x, k)
      && r == Encode(f, sign, Delivered(f, rm, sign, k))
      && after == before + Raised(f, rm, sign, x, k)
  }

  function Delivered(f: Format, rm: Mode, sign: bool, k: nat): nat
    requires f.exp >= 1
  {
    if k < f.Inf() then k
    else if OverflowsToInf(rm, sign) then f.Inf()
    else if f.Inf() >= 1 then f.Inf() - 1 else 0
  }

  // ---------- what the definition means ----------

  /** A magnitude rounds to at most one number, so `Delivers` fixes result and flags. */
  lemma RoundsToUnique(f: Format, unbounded: bool, rm: Mode, sign: bool, x: Exact, j: int, k: int)
    requires f.Valid()
    requires RoundsTo(f, unbounded, rm, sign, x, j) && RoundsTo(f, unbounded, rm, sign, x, k)
    ensures j == k
  {
    hide Val;
    hide Up;
    hide Cmp;
    var a := if RoundsFrom(f, unbounded, rm, sign, x, j, j) then j else j - 1;
    var b := if RoundsFrom(f, unbounded, rm, sign, x, k, k) then k else k - 1;
    BracketOrder(f, unbounded, x, a, b);
    BracketOrder(f, unbounded, x, b, a);
  }

  lemma BracketOrder(f: Format, unbounded: bool, x: Exact, a: int, b: int)
    requires f.Valid() && (unbounded || (a >= 0 && b >= 0))
    requires Between(x, Val(f, unbounded, a), Val(f, unbounded, a + 1))
    requires Between(x, Val(f, unbounded, b), Val(f, unbounded, b + 1))
    ensures a >= b
  {
    ValMono(f, unbounded, a + 1, b);
    CmpOrder(x, Val(f, unbounded, a + 1), Val(f, unbounded, b));
  }

  lemma DeliversUnique(f: Format, rm: Mode, sign: bool, x: Exact, before: set<Flag>,
                       after: set<Flag>, r: nat, after': set<Flag>, r': nat)
    requires f.Valid()
    requires Delivers(f, rm, sign, x, before, after, r)
    requires Delivers(f, rm, sign, x, before, after', r')
    ensures r == r' && after == after'
  {
    var k: nat :| RoundsTo(f, false, rm, sign, x, k)
      && r == Encode(f, sign, Delivered(f, rm, sign, k))
      && after == before + Raised(f, rm, sign, x, k);
    var k': nat :| RoundsTo(f, false, rm, sign, x, k')
      && r' == Encode(f, sign, Delivered(f, rm, sign, k'))
      && after' == before + Raised(f, rm, sign, x, k');
    RoundsToUnique(f, false, rm, sign, x, k, k');
  }

  function Dist(a: real, b: real): real {
    if a < b then b - a else a - b
  }

  /** Rounding to nearest: no magnitude is closer, and among two equally close ones the
      even one (RNE) or the larger one (RMM) is taken. */
  lemma NearestIsNearest(f: Format, rm: Mode, sign: bool, v: real, k: nat, j: nat)
    requires f.Valid() && rm in {RNE, RMM}
    requires RoundsTo(f, false, rm, sign, Num(v), k)
    ensures Dist(v, Val(f, false, k)) <= Dist(v, Val(f, false, j))
    ensures j != k && Dist(v, Val(f, false, k)) == Dist(v, Val(f, false, j)) ==>
              if rm == RNE then k % 2 == 0 && j % 2 == 1 else j < k
  {
    hide Val;
    hide Up;
    hide Dist;
    var lo := if RoundsFrom(f, false, rm, sign, Num(v), k, k) then k else k - 1;
    ValMono(f, false, j, lo);
    ValMono(f, false, lo + 1, j);
    ValNext(f, false, lo);
    NearestPair(rm, sign, v, Val(f, false, lo), Val(f, false, lo + 1), lo % 2 != 0, Val(f, false, j));
  }

  /** The same for two neighbours and a third magnitude `y` that is not between them. */
  lemma NearestPair(rm: Mode, sign: bool, v: real, lo: real, hi: real, odd: bool, y: real)
    requires rm in {RNE, RMM} && lo <= v < hi && (y <= lo || y >= hi)
    ensures var z := if Up(rm, sign, Num(v), lo, hi, odd) then hi else lo;
      && Dist(v, z) <= Dist(v, y)
      && (y != z && Dist(v, z) == Dist(v, y) ==>
            if Up(rm, sign, Num(v), lo, hi, odd) then y == lo && (rm == RNE ==> odd)
            else y == hi && rm == RNE && !odd)
  {
  }

  /** Directed rounding of the signed number: RTZ never grows the magnitude, RDN and RUP
      deliver the neighbour on their own side, and no number lies in between. */
  lemma DirectedIsTight(f: Format, rm: Mode, sign: bool, v: real, k: nat, j: nat)
    requires f.Valid() && rm in {RTZ, RDN, RUP}
    requires RoundsTo(f, false, rm, sign, Num(v), k)
    ensures rm == RTZ || (rm == RDN) == !sign ==>
              Val(f, false, k) <= v && (Val(f, false, j) <= v ==> Val(f, false, j) <= Val(f, false, k))
    ensures rm != RTZ && (rm == RDN) == sign ==>
              v <= Val(f, false, k) && (v <= Val(f, false, j) ==> Val(f, false, k) <= Val(f, false, j))
  {
    var lo := if RoundsFrom(f, false, rm, sign, Num(v), k, k) then k else k - 1;
    ValMono(f, false, j, lo);
    ValMono(f, false, lo + 1, j);
    ValNext(f, false, lo);
  }

  /** A representable magnitude is delivered unchanged and raises nothing. */
  lemma ExactDelivers(f: Format, rm: Mode, sign: bool, k: nat, before: set<Flag>)
    requires f.Valid() && k < f.Inf()
    ensures Delivers(f, rm, sign, Num(Val(f, false, k)), before, before, Encode(f, sign, k))
  {
    ValNext(f, false, k);
    var x := Num(Val(f, false, k));
    assert RoundsFrom(f, false, rm, sign, x, k, k);
    assert before == before + Raised(f, rm, sign, x, k);
  }
}
