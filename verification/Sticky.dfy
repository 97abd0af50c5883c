/** The internal format of the soft-float code: an integer mantissa that stands for an
    exact value it may not equal. All that rounding needs is that the integer compares
    like the exact value at every point where a rounding decision can change. */
module Sticky {
  import opened Bits
  import opened Ieee

  /** On which side of `c * 2^g` does `x` lie? */
  ghost function Side(x: Exact, c: int, g: int): int {
    Cmp(x, c as real * P2(g))
  }

  lemma SideIs(x: Exact, c: int, g: int, v: real)
    requires v == c as real * P2(g)
    ensures Side(x, c, g) == Cmp(x, v)
  {
  }

  lemma SideRange(x: Exact, c: int, g: int)
    ensures -1 <= Side(x, c, g) <= 1
  {
  }

  /** Mantissa `m` compares like `x` at every multiple of `2^j`, where `c * 2^j` stands
      for the number `c * 2^g`. */
  ghost predicate Agrees(x: Exact, m: int, j: nat, g: int) {
    forall c: nat :: AgreesAt(x, m, j, g, c)
  }

  ghost predicate AgreesAt(x: Exact, m: int, j: nat, g: int, c: nat) {
    Side(x, c, g) == Sgn(m - c * Pow2(j))
  }

  /** `m` in units of `2^e` is exactly `x`. */
  ghost predicate Equals(x: Exact, m: int, e: int) {
    Side(x, m, e) == 0
  }

  lemma SideScale(x: Exact, c: int, t: nat, g: int)
    ensures Side(x, c * Pow2(t), g) == Side(x, c, g + t)
  {
    hide Cmp;
    hide P2;
    hide Pow2;
    P2AddNat(g, t);
    CastMul(c, Pow2(t), P2(g), P2(g + t));
    CmpSame(x, (c * Pow2(t)) as real * P2(g), c as real * P2(g + t));
  }

  lemma CmpSame(x: Exact, a: real, b: real)
    requires a == b
    ensures Cmp(x, a) == Cmp(x, b)
  {
  }

  lemma CastMul(c: int, d: int, u: real, v: real)
    requires v == u * d as real
    ensures (c * d) as real * u == c as real * v
  {
    assert (c * d) as real == c as real * d as real;
    Assoc(c as real, d as real, u);
  }

  lemma Assoc(a: real, b: real, u: real)
    ensures (a * b) * u == a * (u * b)
  {
  }

  lemma SideOrder(x: Exact, c: int, d: int, g: int)
    ensures c < d && Side(x, d, g) >= 0 ==> Side(x, c, g) == 1
    ensures c < d && Side(x, c, g) <= 0 ==> Side(x, d, g) == -1
  {
    hide Cmp;
    hide P2;
    if c < d {
      CastOrder(c, d, P2(g));
      CmpOrder(x, c as real * P2(g), d as real * P2(g));
    }
  }

  lemma CastOrder(c: int, d: int, u: real)
    requires c < d && u > 0.0
    ensures c as real * u < d as real * u
  {
    RealOrder(c as real, d as real, u);
  }

  lemma CastLe(c: int, d: int, u: real)
    requires c <= d && u > 0.0
    ensures c as real * u <= d as real * u
    ensures c >= 1 ==> c as real * u > 0.0
  {
    RealOrder(c as real, d as real, u);
    RealOrder(0.0, c as real, u);
  }

  lemma EqualsAgrees(x: Exact, m: int, e: int)
    requires Equals(x, m, e)
    ensures Agrees(x, m, 0, e)
  {
    hide Side;
    forall c: nat
      ensures AgreesAt(x, m, 0, e, c)
    {
      SideOrder(x, c, m, e);
      SideOrder(x, m, c, e);
      assert Pow2(0) == 1;
    }
  }

  lemma EqualsScale(x: Exact, m: int, t: nat, e: int)
    requires Equals(x, m, e)
    ensures Equals(x, m * Pow2(t), e - t)
  {
    SideScale(x, m, t, e - t);
  }

  /** Shifting left keeps agreement, at points that are further apart in the mantissa. */
  lemma AgreesShl(x: Exact, m: nat, j: nat, g: int, t: nat)
    requires Agrees(x, m, j, g)
    ensures Agrees(x, m * Pow2(t), j + t, g)
  {
    hide Side;
    var m', j' := m * Pow2(t), j + t;
    forall c: nat
      ensures AgreesAt(x, m', j', g, c)
    {
      Pow2Add(j, t);
      assert AgreesAt(x, m, j, g, c);
      SgnScale(m, c * Pow2(j), Pow2(t));
      MulAssoc(c, Pow2(j), Pow2(t));
    }
  }

  lemma SgnScale(a: int, b: int, p: nat)
    requires p >= 1
    ensures Sgn(a * p - b * p) == Sgn(a - b)
  {
    MulOrder(a, b, p);
    MulOrder(b, a, p);
  }

  /** Agreement at fine points gives agreement at coarser ones. */
  lemma AgreesCoarser(x: Exact, m: int, j: nat, g: int, t: nat)
    requires Agrees(x, m, j, g)
    ensures Agrees(x, m, j + t, g + t)
  {
    hide Side;
    var j', g' := j + t, g + t;
    forall c: nat
      ensures AgreesAt(x, m, j', g', c)
    {
      SideScale(x, c, t, g);
      Pow2Add(t, j);
      MulAssoc(c, Pow2(t), Pow2(j));
      assert AgreesAt(x, m, j, g, c * Pow2(t));
    }
  }

  /** `rshift_rnd` by `d` keeps agreement at all points that stay even. */
  lemma AgreesJam(x: Exact, m: nat, j: nat, g: int, d: nat)
    requires Agrees(x, m, j + d, g) && j >= 1
    ensures Agrees(x, Jam(m, d), j, g)
  {
    hide Side;
    hide Jam;
    forall c: nat
      ensures AgreesAt(x, Jam(m, d), j, g, c)
    {
      assert AgreesAt(x, m, j + d, g, c);
      Pow2Add(j, d);
      MulAssoc(c, Pow2(j), Pow2(d));
      EvenMul(c, Pow2(j - 1));
      JamSide(m, d, c * Pow2(j));
    }
  }

  lemma EvenMul(c: int, p: int)
    ensures (c * (2 * p)) % 2 == 0
  {
    assert c * (2 * p) == 2 * (c * p);
  }

  /** Zero agrees everywhere. */
  lemma ZeroAgrees(x: Exact, e: int, j: nat, g: int)
    requires Equals(x, 0, e)
    ensures Agrees(x, 0, j, g)
  {
    SideIs(x, 0, e, 0.0);
    hide Cmp;
    forall c: nat
      ensures AgreesAt(x, 0, j, g, c)
    {
      SideIs(x, 0, g, 0.0);
      SideOrder(x, 0, c, g);
      if c > 0 {
        MulOrder(0, c, Pow2(j));
      }
    }
  }

  /** The sticky idiom: an integer part with the lowest bit set when something was lost. */
  lemma AgreesFloor(x: Exact, s: nat, inexact: bool, e: int)
    requires Side(x, s, e) >= 0 && Side(x, s + 1, e) < 0
    requires inexact <==> Side(x, s, e) != 0
    ensures Agrees(x, BitOr(s, B2N(inexact)), 1, e + 1)
  {
    hide Side;
    hide BitOr;
    StickyBit(s, inexact);
    SideRange(x, s, e);
    SideRange(x, s + 1, e);
    assert Pow2(1) == 2 by { assert Pow2(0) == 1; }
    var g := e + 1;
    forall c: nat
      ensures AgreesAt(x, BitOr(s, B2N(inexact)), 1, g, c)
    {
      SideScale(x, c, 1, e);
      SideOrder(x, c * 2, s, e);
      SideOrder(x, s, c * 2, e);
      SideOrder(x, s + 1, c * 2, e);
    }
  }

  /** Adding or subtracting a jammed operand: `r` in units of `2^e` and `c` in units of
      `2^(e - d)`. As long as `r` is even, the sticky bit keeps the sum on the right side
      of every even point. */
  lemma AgreesSum(x: Exact, r: nat, c: nat, d: nat, sub: bool, e: int)
    requires r % 2 == 0
    requires Equals(x, if sub then r * Pow2(d) - c else r * Pow2(d) + c, e - d)
    ensures Agrees(x, if sub then r - Jam(c, d) else r + Jam(c, d), 1, e + 1)
  {
    hide Side;
    hide Jam;
    var n := if sub then r * Pow2(d) - c else r * Pow2(d) + c;
    var m := if sub then r - Jam(c, d) else r + Jam(c, d);
    var g := e + 1;
    EqualsAgrees(x, n, e - d);
    forall k: nat
      ensures AgreesAt(x, m, 1, g, k)
    {
      SideScale(x, k, d + 1, e - d);
      assert AgreesAt(x, n, 0, e - d, k * Pow2(d + 1));
      OnePow();
      Double2(k, Pow2(d));
      SumSide(r, c, d, sub, k);
    }
  }

  lemma SumSide(r: nat, c: nat, d: nat, sub: bool, k: nat)
    requires r % 2 == 0
    ensures Sgn((if sub then r * Pow2(d) - c else r * Pow2(d) + c) - 2 * (k * Pow2(d)))
         == Sgn((if sub then r - Jam(c, d) else r + Jam(c, d)) - 2 * k)
  {
    hide Pow2;
    hide Jam;
    var p, n := Pow2(d), if sub then r - 2 * k else 2 * k - r;
    JamSide(c, d, n);
    var np := n * p;
    assert if sub then r * p - 2 * (k * p) == np else 2 * (k * p) - r * p == np by { Offsets(r, k, p); }
    hide Sgn;
    if sub {
      SgnFlips(c - np);
      SgnFlips(Jam(c, d) - n);
    }
  }

  lemma Offsets(r: int, k: int, p: int)
    ensures (r - 2 * k) * p == r * p - 2 * (k * p) && (2 * k - r) * p == 2 * (k * p) - r * p
  {
  }

  lemma SgnFlips(n: int)
    ensures Sgn(-n) == -Sgn(n)
  {
  }

  /** When no bit is shifted out the sum is exact. */
  lemma EqualsSum(x: Exact, r: nat, c: nat, d: nat, sub: bool, e: int)
    requires c % Pow2(d) == 0
    requires Equals(x, if sub then r * Pow2(d) - c else r * Pow2(d) + c, e - d)
    ensures Equals(x, if sub then r - Jam(c, d) else r + Jam(c, d), e)
  {
    hide Side;
    hide Jam;
    JamExact(c, d);
    Distribute(r, Jam(c, d), Pow2(d));
    SideScale(x, if sub then r - Jam(c, d) else r + Jam(c, d), d, e - d);
  }

  /** The real-number side: sum and difference of two scaled integers. */
  lemma SumScaled(a: real, b: real, m: int, n: int, g: int)
    requires a == m as real * P2(g) && b == n as real * P2(g)
    ensures a + b == (m + n) as real * P2(g)
    ensures a - b == (m - n) as real * P2(g)
  {
    hide P2;
    RealDistribute(m as real, n as real, P2(g));
    assert (m + n) as real == m as real + n as real;
    assert (m - n) as real == m as real - n as real;
  }

  lemma RealDistribute(a: real, b: real, c: real)
    ensures (a + b) * c == a * c + b * c
    ensures (a - b) * c == a * c - b * c
  {
  }

  lemma EqualsNum(v: real, m: int, e: int)
    requires v == m as real * P2(e)
    ensures Equals(Num(v), m, e)
  {
    hide P2;
    SideIs(Num(v), m, e, v);
  }
}
