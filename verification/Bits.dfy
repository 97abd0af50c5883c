/** Powers of two and the word operations the emulator's C code is written in.
    A machine word is a `nat` below `Pow2(w)`; every truncation is explicit. */
module Bits {

  function Pow2(n: nat): (p: nat)
    ensures p >= 1
  {
    if n == 0 then 1 else 2 * Pow2(n - 1)
  }

  lemma {:induction false} Pow2Add(a: nat, b: nat)
    ensures Pow2(a + b) == Pow2(a) * Pow2(b)
  {
    if a > 0 {
      Pow2Add(a - 1, b);
      assert a + b - 1 == a - 1 + b;
      DoubleProduct(Pow2(a - 1), Pow2(b), Pow2(a));
    }
  }

  lemma DoubleProduct(x: nat, y: nat, z: nat)
    requires z == 2 * x
    ensures z * y == 2 * (x * y)
  {
  }

  lemma {:induction false} Pow2Mono(a: nat, b: nat)
    ensures a <= b ==> Pow2(a) <= Pow2(b)
    ensures a < b ==> 2 * Pow2(a) <= Pow2(b)
    decreases b
  {
    if a < b {
      Pow2Mono(a, b - 1);
    }
  }

  function B2N(b: bool): (n: nat)
    ensures n <= 1
  {
    if b then 1 else 0
  }

  function Sgn(n: int): int {
    if n < 0 then -1 else if n == 0 then 0 else 1
  }

  function Quot(a: nat, p: nat): (q: nat)
    requires p >= 1
  {
    DivNonneg(a, p);
    a / p
  }

  lemma DivNonneg(a: nat, p: nat)
    requires p >= 1
    ensures a / p >= 0
  {
    MulOrder(a / p, -1, p);
    DivMod(a, p);
  }

  function Rem(a: nat, p: nat): (r: nat)
    requires p >= 1
    ensures r < p
  {
    a % p
  }

  /** `a << d` in a word of `w` bits. */
  function Shl(w: nat, a: nat, d: nat): nat {
    Rem(a * Pow2(d), Pow2(w))
  }

  /** `a - b`, wrapping around in a word of `w` bits. */
  function SubWord(w: nat, a: nat, b: nat): nat {
    DivMod(a - b, Pow2(w));
    (a - b) % Pow2(w)
  }

  /** `a >> d`. */
  function Shr(a: nat, d: nat): nat {
    Quot(a, Pow2(d))
  }

  /** `a & (((F_UINT)1 << d) - 1)`. */
  function Low(a: nat, d: nat): nat {
    Rem(a, Pow2(d))
  }

  /** `a | b`. */
  function BitOr(a: nat, b: nat): nat
    decreases a + b
  {
    if a == 0 && b == 0 then 0
    else 2 * BitOr(a / 2, b / 2) + B2N(a % 2 == 1 || b % 2 == 1)
  }

  lemma {:induction false} BitOrZero(a: nat)
    ensures BitOr(a, 0) == a
    ensures BitOr(0, a) == a
  {
    if a > 0 {
      BitOrZero(a / 2);
    }
  }

  /** ORing in a sticky bit. */
  lemma {:induction false} BitOrFits(a: nat, b: nat, k: nat)
    requires a < Pow2(k) && b < Pow2(k)
    ensures BitOr(a, b) < Pow2(k)
    decreases k
  {
    if k > 0 {
      BitOrFits(a / 2, b / 2, k - 1);
    }
  }

  lemma BitOrBit(a: nat, b: nat)
    requires b <= 1
    ensures BitOr(a, b) == if b == 1 && a % 2 == 0 then a + 1 else a
  {
    BitOrZero(a / 2);
    BitOrZero(a);
  }

  /** ORing together fields that do not overlap is adding them. */
  lemma {:induction false} BitOrDisjoint(a: nat, b: nat, k: nat)
    requires a % Pow2(k) == 0 && b < Pow2(k)
    ensures BitOr(a, b) == a + b
    ensures BitOr(b, a) == a + b
  {
    if k == 0 {
      BitOrZero(a);
    } else {
      var p := Pow2(k - 1);
      DivMulMod(a, p);
      assert a % 2 == 0 && (a / 2) % p == 0;
      BitOrDisjoint(a / 2, b / 2, k - 1);
      if a == 0 && b == 0 {
      } else {
        assert BitOr(a, b) == 2 * BitOr(a / 2, b / 2) + B2N(b % 2 == 1);
        assert BitOr(b, a) == 2 * BitOr(b / 2, a / 2) + B2N(b % 2 == 1);
      }
    }
  }

  /** A multiple of `2 * p` is even and its half is a multiple of `p`. */
  lemma DivMulMod(a: nat, p: nat)
    requires p >= 1 && a % (2 * p) == 0
    ensures a % 2 == 0 && (a / 2) % p == 0
  {
    var c := a / (2 * p);
    assert a == c * (2 * p);
    assert a == 2 * (c * p);
    assert a / 2 == c * p;
    MulMod(c, p);
  }

  /** Number of significant bits. */
  function BitLen(a: nat): (l: nat)
    ensures a < Pow2(l)
    ensures a > 0 ==> l > 0 && Pow2(l - 1) <= a
  {
    if a == 0 then 0
    else
      assert a < 2 * Pow2(BitLen(a / 2));
      1 + BitLen(a / 2)
  }

  lemma BitLenBound(a: nat, w: nat)
    requires a < Pow2(w)
    ensures BitLen(a) <= w
  {
    var l := BitLen(a);
    if l > 0 {
      Pow2Mono(w, l - 1);
    }
  }

  /** `clz` of a `w`-bit word; `w` when the word is zero. */
  function Clz(w: nat, a: nat): nat
    requires a < Pow2(w)
  {
    BitLenBound(a, w);
    w - BitLen(a)
  }

  lemma ClzTop(w: nat, a: nat)
    requires 0 < a < Pow2(w)
    ensures Clz(w, a) < w
    ensures Pow2(w - 1 - Clz(w, a)) <= a < Pow2(w - Clz(w, a))
  {
    BitLenBound(a, w);
  }

  // ---------- integer division facts the proofs keep needing ----------

  lemma Double2(a: int, b: int)
    ensures a * (2 * b) == 2 * (a * b)
  {
  }

  lemma HalvePow(n: nat)
    requires n >= 1
    ensures Pow2(n) == 2 * Pow2(n - 1)
  {
  }

  lemma MulLeft(a: nat, b: int, c: int)
    requires b <= c
    ensures a * b <= a * c
  {
  }

  lemma OnePow()
    ensures Pow2(0) == 1 && Pow2(1) == 2 && Pow2(2) == 4 && Pow2(3) == 8
  {
  }

  lemma MulAssoc(a: int, b: int, c: int)
    ensures (a * b) * c == a * (b * c)
  {
  }

  lemma MulMod(c: nat, p: nat)
    requires p >= 1
    ensures (c * p) % p == 0
    ensures (c * p) / p == c
  {
    DivUnique(c * p, p, c, 0);
  }

  lemma DivMod(a: int, p: int)
    requires p >= 1
    ensures a == a / p * p + a % p
    ensures 0 <= a % p < p
  {
  }

  lemma DivUnique(a: int, p: int, q: int, r: int)
    requires p >= 1 && a == q * p + r && 0 <= r < p
    ensures a / p == q && a % p == r
  {
    var q', r' := a / p, a % p;
    Distribute(q, q', p);
    MulOrder(1, q - q', p);
    MulOrder(q - q', -1, p);
  }

  lemma Distribute(a: int, b: int, c: int)
    ensures (a + b) * c == a * c + b * c
    ensures (a - b) * c == a * c - b * c
  {
  }

  /** Multiplying by a positive number keeps the order. */
  lemma MulOrder(a: int, b: int, c: int)
    requires 0 < c
    ensures a <= b ==> a * c <= b * c
    ensures a < b ==> a * c < b * c
  {
  }

  lemma ModSmall(a: nat, p: nat)
    requires a < p
    ensures a % p == a
  {
  }

  /** A shift that loses no high bit is a multiplication. */
  lemma ShlExact(w: nat, a: nat, d: nat)
    requires d <= w && a < Pow2(w - d)
    ensures Shl(w, a, d) == a * Pow2(d) < Pow2(w)
  {
    Pow2Add(w - d, d);
    MulOrder(a, Pow2(w - d), Pow2(d));
    ModSmall(a * Pow2(d), Pow2(w));
  }

  /** What `rshift_rnd` computes: the quotient with every lost bit folded into bit 0. */
  function Jam(a: nat, d: nat): nat {
    JamBy(a, Pow2(d))
  }

  function JamBy(a: nat, p: nat): nat
    requires p >= 1
  {
    BitOr(Quot(a, p), B2N(Rem(a, p) != 0))
  }

  /** Seen from an even number, a jammed shift sits on the same side as the exact quotient. */
  lemma JamSide(a: nat, d: nat, n: int)
    requires n % 2 == 0
    ensures Sgn(Jam(a, d) - n) == Sgn(a - n * Pow2(d))
  {
    JamBySide(a, Pow2(d), n);
  }

  lemma JamBySide(a: nat, p: nat, n: int)
    requires p >= 1 && n % 2 == 0
    ensures Sgn(JamBy(a, p) - n) == Sgn(a - n * p)
  {
    var q, r := a / p, a % p;
    DivMod(a, p);
    StickyBit(Quot(a, p), r != 0);
    QuotientSide(q, r, p, n);
  }

  /** `q | b` for a condition `b`. */
  lemma StickyBit(q: nat, b: bool)
    ensures BitOr(q, B2N(b)) == if b && q % 2 == 0 then q + 1 else q
  {
    BitOrBit(q, B2N(b));
  }

  lemma QuotientSide(q: int, r: int, p: int, n: int)
    requires 0 <= r < p
    ensures q < n ==> q * p + r < n * p
    ensures q > n ==> q * p + r > n * p
    ensures q == n ==> q * p + r - n * p == r
  {
    MulOrder(q + 1, n, p);
    MulOrder(n + 1, q, p);
    Distribute(q, 1, p);
    Distribute(n, 1, p);
  }

  lemma JamExact(a: nat, d: nat)
    requires a % Pow2(d) == 0
    ensures Jam(a, d) * Pow2(d) == a
    ensures Jam(a, d) == a / Pow2(d)
  {
    JamByExact(a, Pow2(d));
  }

  lemma JamByExact(a: nat, p: nat)
    requires p >= 1 && a % p == 0
    ensures JamBy(a, p) * p == a
    ensures JamBy(a, p) == a / p
  {
    StickyBit(Quot(a, p), false);
    DivMod(a, p);
  }

  lemma JamZero(a: nat)
    ensures Jam(a, 0) == a
  {
    JamByExact(a, 1);
  }

  lemma JamBounds(a: nat, d: nat)
    ensures Jam(a, d) <= a / Pow2(d) + 1
    ensures a > 0 ==> Jam(a, d) > 0
  {
    JamByBounds(a, Pow2(d));
  }

  lemma JamByBounds(a: nat, p: nat)
    requires p >= 1
    ensures JamBy(a, p) <= a / p + 1
    ensures a > 0 ==> JamBy(a, p) > 0
  {
    StickyBit(Quot(a, p), a % p != 0);
    DivMod(a, p);
  }
}
