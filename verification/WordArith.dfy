/** The integer kernels under the soft-float operations: double-word product, restoring
    division and Newton's square root (softfp_template.h:306-347, 554-587, 655-718), and
    the high-half products of the M extension (instructions.c:40-82). */
module WordArith {
  import opened Bits
  import opened Ieee

  // ---------- multiplication ----------

  /** The half-word columns of a schoolbook product, with the carries the code keeps. */
  datatype Columns = Columns(r0: nat, r1: nat, r2: nat, r3: nat)

  /** The columns of `r11 * h^2 + (r01 + r10) * h + r00`. */
  function Carry(h: nat, r00: nat, r01: nat, r10: nat, r11: nat): (k: Columns)
    requires h >= 1
    ensures k.r0 < h && k.r1 < h && k.r2 < h
  {
    var c := Quot(r00, h) + Rem(r01, h) + Rem(r10, h);
    var c' := Quot(c, h) + Quot(r01, h) + Quot(r10, h) + Rem(r11, h);
    Columns(Rem(r00, h), Rem(c, h), Rem(c', h), Quot(c', h) + Quot(r11, h))
  }

  /** softfp_template.h:324-339 and instructions.c:44-58, for a half word of base `h`. */
  function Schoolbook(h: nat, a: nat, b: nat): Columns
    requires h >= 1
  {
    Carry(h, Rem(a, h) * Rem(b, h), Rem(a, h) * Quot(b, h), Quot(a, h) * Rem(b, h), Quot(a, h) * Quot(b, h))
  }

  function Total(h: nat, k: Columns): int {
    (k.r3 * h + k.r2) * (h * h) + (k.r1 * h + k.r0)
  }

  /** No carry is lost: the four columns are exactly the product. */
  lemma SchoolbookExact(h: nat, a: nat, b: nat)
    requires h >= 1
    ensures Total(h, Schoolbook(h, a, b)) == a * b
  {
    hide Quot;
    hide Rem;
    hide Carry;
    hide Total;
    var a0, a1, b0, b1 := Rem(a, h), Quot(a, h), Rem(b, h), Quot(b, h);
    SplitAt(a, h);
    SplitAt(b, h);
    Expand(a, b, a1, a0, b1, b0, h);
    CarryExact(h, a0 * b0, a0 * b1, a1 * b0, a1 * b1);
  }

  lemma CarryExact(h: nat, r00: nat, r01: nat, r10: nat, r11: nat)
    requires h >= 1
    ensures Total(h, Carry(h, r00, r01, r10, r11)) == r11 * (h * h) + r01 * h + r10 * h + r00
  {
    hide Quot;
    hide Rem;
    var c := Quot(r00, h) + Rem(r01, h) + Rem(r10, h);
    var c' := Quot(c, h) + Quot(r01, h) + Quot(r10, h) + Rem(r11, h);
    SplitAt(r00, h);
    SplitAt(r01, h);
    SplitAt(r10, h);
    SplitAt(r11, h);
    SplitAt(c, h);
    SplitAt(c', h);
    Collect(h, r00, r01, r10, r11, Quot(r00, h), Rem(r00, h), Quot(r01, h), Rem(r01, h),
            Quot(r10, h), Rem(r10, h), Quot(r11, h), Rem(r11, h),
            Quot(c, h), Rem(c, h), Quot(c', h), Rem(c', h));
  }

  lemma SplitAt(a: nat, h: nat)
    requires h >= 1
    ensures a == Quot(a, h) * h + Rem(a, h)
  {
    DivMod(a, h);
  }

  lemma Expand(a: int, b: int, a1: int, a0: int, b1: int, b0: int, h: int)
    requires a == a1 * h + a0 && b == b1 * h + b0
    ensures a * b
         == (a1 * b1) * (h * h) + (a0 * b1) * h + (a1 * b0) * h + a0 * b0
  {
    Distribute(a1 * h, a0, b1 * h + b0);
    assert (a1 * h) * (b1 * h + b0) == (a1 * b1) * (h * h) + (a1 * b0) * h;
    assert a0 * (b1 * h + b0) == (a0 * b1) * h + a0 * b0;
  }

  lemma Collect(h: int, r00: int, r01: int, r10: int, r11: int,
                u00: int, l00: int, u01: int, l01: int, u10: int, l10: int, u11: int, l11: int,
                c1: int, r1: int, c2: int, r2: int)
    requires r00 == u00 * h + l00 && r01 == u01 * h + l01
    requires r10 == u10 * h + l10 && r11 == u11 * h + l11
    requires u00 + l01 + l10 == c1 * h + r1
    requires c1 + u01 + u10 + l11 == c2 * h + r2
    ensures ((c2 + u11) * h + r2) * (h * h) + (r1 * h + l00)
         == r11 * (h * h) + r01 * h + r10 * h + r00
  {
    var hh := h * h;
    Distribute((c2 + u11) * h, r2, hh);
    Distribute(c2, u11, h);
    assert ((c2 + u11) * h + r2) * hh == (c2 * h + r2) * hh + (u11 * h) * hh;
    assert c2 * h + r2 == c1 + u01 + u10 + l11;
    Distribute(c1 + u01, u10 + l11, hh);
    Distribute(c1, u01, hh);
    Distribute(u10, l11, hh);
    Distribute(u11 * h, l11, hh);
    Distribute(u01 * h, l01, h);
    Distribute(u10 * h, l10, h);
    assert c1 * hh == (c1 * h) * h;
    assert u01 * hh == (u01 * h) * h;
    assert u10 * hh == (u10 * h) * h;
    assert (c1 * h) * h + r1 * h == (u00 + l01 + l10) * h by { Distribute(c1 * h, r1, h); }
    Distribute(u00 + l01, l10, h);
    Distribute(u00, l01, h);
  }

  lemma SchoolbookDigits(h: nat, a: nat, b: nat)
    requires h >= 1
    ensures var k := Schoolbook(h, a, b); k.r0 < h && k.r1 < h && k.r2 < h
  {
    hide Quot;
    hide Rem;
    hide Carry;
    var a0, a1, b0, b1 := Rem(a, h), Quot(a, h), Rem(b, h), Quot(b, h);
    var k := Carry(h, a0 * b0, a0 * b1, a1 * b0, a1 * b1);
  }

  /** `(hi << k) | lo` for half words of base `h`. */
  function Join(hi: nat, lo: nat, h: nat): nat {
    Nonneg(hi, h);
    BitOr(hi * h, lo)
  }

  lemma Nonneg(a: nat, b: nat)
    ensures a * b >= 0
  {
  }

  lemma JoinIs(hi: nat, lo: nat, k: nat)
    requires lo < Pow2(k)
    ensures Join(hi, lo, Pow2(k)) == hi * Pow2(k) + lo
    ensures hi < Pow2(k) ==> Join(hi, lo, Pow2(k)) < Pow2(2 * k)
  {
    hide Pow2;
    hide BitOr;
    Nonneg(hi, Pow2(k));
    MulMod(hi, Pow2(k));
    BitOrDisjoint(hi * Pow2(k), lo, k);
    Pow2Add(k, k);
    if hi < Pow2(k) {
      PairFits(hi, lo, Pow2(k));
    }
  }

  /** In a word of `w = 2 * k` bits every column fits a half word. */
  lemma SchoolbookFits(k: nat, a: nat, b: nat)
    requires a < Pow2(2 * k) && b < Pow2(2 * k)
    ensures var c := Schoolbook(Pow2(k), a, b);
      var low, high := Join(c.r1, c.r0, Pow2(k)), Join(c.r3, c.r2, Pow2(k));
      low < Pow2(2 * k) && high < Pow2(2 * k) && high * Pow2(2 * k) + low == a * b
  {
    hide Pow2;
    hide Schoolbook;
    hide Join;
    Pow2Add(k, k);
    var h := Pow2(k);
    var c := Schoolbook(h, a, b);
    SchoolbookExact(h, a, b);
    SchoolbookDigits(h, a, b);
    JoinIs(c.r1, c.r0, k);
    JoinIs(c.r3, c.r2, k);
    TopColumn(h, c.r3, c.r2, c.r1 * h + c.r0, a, b);
  }

  lemma PairFits(a: nat, b: nat, h: nat)
    requires a < h && b < h
    ensures a * h + b < h * h
  {
    MulOrder(a + 1, h, h);
    Distribute(a, 1, h);
  }

  lemma TopColumn(h: nat, r3: nat, r2: nat, low: nat, a: nat, b: nat)
    requires h >= 1 && a < h * h && b < h * h
    requires (r3 * h + r2) * (h * h) + low == a * b
    ensures r3 < h
  {
    var hh := h * h;
    assert a * b < hh * hh by {
      MulOrder(b, hh, hh);
      if b > 0 {
        MulOrder(a, hh, b);
      }
    }
    MulOrder(hh, r3 * h + r2, hh);
    MulOrder(h, r3, h);
  }

  /** mul_u: the double-word product of two words. */
  method MulU(f: Format, a: nat, b: nat) returns (high: nat, low: nat)
    requires f.Valid() && a < Pow2(f.size) && b < Pow2(f.size)
    ensures high < Pow2(f.size) && low < Pow2(f.size)
    ensures high * Pow2(f.size) + low == a * b
  {
    hide Pow2;
    hide Join;
    if f.hasULong {
      var r := a * b;
      low := Rem(r, Pow2(f.size));
      high := Shr(r, f.size);
      SplitAt(r, Pow2(f.size));
      HighWord(a, b, high, low, Pow2(f.size));
    } else {
      var h := Pow2(f.size / 2);
      SchoolbookFits(f.size / 2, a, b);
      assert 2 * (f.size / 2) == f.size;
      var a0, a1, b0, b1 := Rem(a, h), Quot(a, h), Rem(b, h), Quot(b, h);
      var r00, r01, r10, r11 := a0 * b0, a0 * b1, a1 * b0, a1 * b1;
      var r0 := Rem(r00, h);
      var c := Quot(r00, h) + Rem(r01, h) + Rem(r10, h);
      var r1 := Rem(c, h);
      c := Quot(c, h) + Quot(r01, h) + Quot(r10, h) + Rem(r11, h);
      var r2 := Rem(c, h);
      var r3 := Quot(c, h) + Quot(r11, h);
      assert Schoolbook(h, a, b) == Columns(r0, r1, r2, r3);
      low := Join(r1, r0, h);
      high := Join(r3, r2, h);
    }
  }

  lemma HighWord(a: nat, b: nat, q: nat, r: nat, p: nat)
    requires p >= 1 && a < p && b < p && a * b == q * p + r
    ensures q < p
  {
    if b > 0 {
      MulOrder(a, p, b);
      MulOrder(b, p, p);
    }
    MulOrder(p, q, p);
  }

  // ---------- high halves of 64-bit products ----------

  /** A two's-complement 64-bit word read as a signed number, and back. */
  function Signed64(a: nat): int {
    if a < Pow2(63) then a else a - Pow2(64)
  }

  function Word64(i: int): (r: nat)
    ensures r < Pow2(64)
  {
    i % Pow2(64)
  }

  /** mulhu: the high word of the unsigned product. */
  method Mulhu(a: nat, b: nat) returns (r: nat)
    requires a < Pow2(64) && b < Pow2(64)
    ensures r == (a * b) / Pow2(64) && r < Pow2(64)
  {
    hide Pow2;
    hide Join;
    SchoolbookFits(32, a, b);
    var h := Pow2(32);
    var a0, a1, b0, b1 := Rem(a, h), Quot(a, h), Rem(b, h), Quot(b, h);
    var r00, r01, r10, r11 := a0 * b0, a0 * b1, a1 * b0, a1 * b1;
    var c := Quot(r00, h) + Rem(r01, h) + Rem(r10, h);
    ghost var r1 := Rem(c, h);
    c := Quot(c, h) + Quot(r01, h) + Quot(r10, h) + Rem(r11, h);
    var r2 := Rem(c, h);
    var r3 := Quot(c, h) + Quot(r11, h);
    assert Schoolbook(h, a, b) == Columns(Rem(r00, h), r1, r2, r3);
    r := Join(r3, r2, h);
    DivUnique(a * b, Pow2(64), r, Join(r1, Rem(r00, h), h));
  }

  /** mulh: the high word of the signed product, by subtractive corrections. */
  method Mulh(a: nat, b: nat) returns (r: nat)
    requires a < Pow2(64) && b < Pow2(64)
    ensures r == Word64((Signed64(a) * Signed64(b)) / Pow2(64))
  {
    hide Pow2;
    hide Word64;
    var r1 := Mulhu(a, b);
    HighCorrection(a, b, a * b, r1);
    if Signed64(a) < 0 {
      r1 := Word64(r1 - b);
    }
    if Signed64(b) < 0 {
      r1 := Word64(r1 - a);
    }
    r := r1;
  }

  /** mulhsu: the high word of the signed-by-unsigned product. */
  method Mulhsu(a: nat, b: nat) returns (r: nat)
    requires a < Pow2(64) && b < Pow2(64)
    ensures r == Word64((Signed64(a) * b) / Pow2(64))
  {
    hide Pow2;
    hide Word64;
    var r1 := Mulhu(a, b);
    HighCorrection(a, b, a * b, r1);
    if Signed64(a) < 0 {
      r1 := Word64(r1 - b);
    }
    r := r1;
  }

  /** Replacing an operand `a` by `a - 2^64` lowers the high word by the other operand. */
  lemma HighCorrection(a: nat, b: nat, p: int, q: nat)
    requires a < Pow2(64) && b < Pow2(64) && p == a * b && q == p / Pow2(64) && q < Pow2(64)
    ensures Signed64(a) >= 0 ==> Word64((Signed64(a) * b) / Pow2(64)) == q
    ensures Signed64(a) < 0 ==> Word64((Signed64(a) * b) / Pow2(64)) == Word64(q - b)
    ensures var qa := if Signed64(a) < 0 then Word64(q - b) else q;
      Word64((Signed64(a) * Signed64(b)) / Pow2(64)) == if Signed64(b) < 0 then Word64(qa - a) else qa
  {
    hide Pow2;
    var w := Pow2(64);
    ProductShift(a, b, w, B2N(Signed64(a) < 0), B2N(Signed64(b) < 0));
    WordIdle(q);
    WordTwice(q, b, a);
    WordPlus(q - B2N(Signed64(a) < 0) * b - B2N(Signed64(b) < 0) * a,
             B2N(Signed64(a) < 0) * B2N(Signed64(b) < 0));
    ProductShift(a, b, w, B2N(Signed64(a) < 0), 0);
  }

  lemma ProductShift(a: int, b: int, w: int, i: int, j: int)
    requires w >= 1
    ensures ((a - i * w) * (b - j * w)) / w == (a * b) / w - i * b - j * a + i * j * w
  {
    var p := a * b;
    DivMod(p, w);
    var k := p / w - i * b - j * a + i * j * w;
    assert (a - i * w) * (b - j * w) == p - (i * b) * w - (j * a) * w + (i * j * w) * w;
    Distribute(p / w - i * b - j * a, i * j * w, w);
    Distribute(p / w - i * b, j * a, w);
    Distribute(p / w, i * b, w);
    DivUnique((a - i * w) * (b - j * w), w, k, p % w);
  }

  lemma WordIdle(q: nat)
    requires q < Pow2(64)
    ensures Word64(q) == q
  {
    hide Pow2;
    ModSmall(q, Pow2(64));
  }

  lemma WordTwice(q: int, b: int, a: int)
    ensures Word64(Word64(q - b) - a) == Word64(q - b - a)
  {
    hide Pow2;
    ModShift(q - b, -a, Pow2(64));
  }

  lemma WordPlus(q: int, i: int)
    ensures Word64(q + i * Pow2(64)) == Word64(q)
  {
    hide Pow2;
    var w := Pow2(64);
    DivMod(q, w);
    Distribute(q / w, i, w);
    DivUnique(q + i * w, w, q / w + i, q % w);
  }

  lemma ModShift(x: int, y: int, w: int)
    requires w >= 1
    ensures (x % w + y) % w == (x + y) % w
  {
    DivMod(x, w);
    DivMod(x % w + y, w);
    var k := (x % w + y) / w;
    Distribute(k, x / w, w);
    DivUnique(x + y, w, k + x / w, (x % w + y) % w);
  }

  // ---------- division ----------

  /** divrem_u: quotient and remainder of a double word by a word. */
  method DivRemU(f: Format, ah: nat, al: nat, b: nat) returns (q: nat, r: nat)
    requires f.Valid() && al < Pow2(f.size) && ah < b < Pow2(f.size)
    ensures q * b + r == ah * Pow2(f.size) + al && r < b
    ensures q < Pow2(f.size)
  {
    hide Pow2;
    if f.hasULong {
      var n := ah * Pow2(f.size) + al;
      r := Rem(n, b);
      q := Quot(n, b);
      SplitAt(n, b);
    } else {
      q, r := DivRemRestoring(f.size, ah, al, b);
    }
    QuotientFits(Pow2(f.size), ah, al, b, q, r);
  }

  /** The word-sized divrem_u: a bitwise restoring divider. `ab` is the bit that the left
      shift of `a1` pushes out of the word. */
  method DivRemRestoring(w: nat, ah: nat, al: nat, b: nat) returns (q: nat, r: nat)
    requires w >= 1 && al < Pow2(w) && ah < b < Pow2(w)
    ensures q * b + r == ah * Pow2(w) + al && r < b
  {
    hide *;
    ghost var a := ah * Pow2(w) + al;
    ghost var done: nat, rest: nat := 0, al;
    DivStart(w, a, ah, al, b);
    var a1: nat, a0: nat := ah, al;
    var i := 0;
    while i < w
      invariant 0 <= i <= w
      invariant Dividing(w, a, b, i, a1, a0, done, rest)
    {
      DivStep(w, a, b, i, a1, a0, done, rest);
      ghost var half := Pow2(w - i - 1);
      var ab := Shr(a1, w - 1);
      a1 := BitOr(Shl(w, a1, 1), Shr(a0, w - 1));
      if ab != 0 || a1 >= b {
        a1 := SubWord(w, a1, b);
        a0 := BitOr(Shl(w, a0, 1), 1);
        done := 2 * done + 1;
      } else {
        a0 := BitOr(Shl(w, a0, 1), 0);
        done := 2 * done;
      }
      rest := Rem(rest, half);
      i := i + 1;
    }
    DivEnd(w, a, b, a1, a0, done, rest);
    r := a1;
    q := a0;
  }

  lemma QuotientFits(p: nat, ah: nat, al: nat, b: nat, q: nat, r: nat)
    requires al < p && ah < b && r < b && q * b + r == ah * p + al
    ensures q < p
  {
    Distribute(ah, 1, p);
    MulOrder(ah + 1, b, p);
    MulOrder(p, q, b);
  }

  /** After `i` rounds: `a0` holds the unread bits `rest` of the low word above the `i`
      quotient bits `done`, and `a1` is the remainder of the part of `a` read so far. */
  ghost predicate Dividing(w: nat, a: nat, b: nat, i: nat, a1: nat, a0: nat, done: nat, rest: nat) {
    && i <= w && a1 < b < Pow2(w)
    && done < Pow2(i) && rest < Pow2(w - i)
    && a0 == rest * Pow2(i) + done
    && a == (done * b + a1) * Pow2(w - i) + rest
  }

  lemma DivStart(w: nat, a: nat, ah: nat, al: nat, b: nat)
    requires al < Pow2(w) && ah < b < Pow2(w) && a == ah * Pow2(w) + al
    ensures Dividing(w, a, b, 0, ah, al, 0, al)
  {
    assert Pow2(0) == 1;
  }

  lemma DivEnd(w: nat, a: nat, b: nat, a1: nat, a0: nat, done: nat, rest: nat)
    requires Dividing(w, a, b, w, a1, a0, done, rest)
    ensures a == a0 * b + a1 && a1 < b
  {
    assert Pow2(0) == 1;
  }

  /** One round of the divider; the bit lost from `a1` still counts. */
  lemma DivStep(w: nat, a: nat, b: nat, i: nat, a1: nat, a0: nat, done: nat, rest: nat)
    requires i < w && Dividing(w, a, b, i, a1, a0, done, rest)
    ensures var ab := Shr(a1, w - 1);
      var s := BitOr(Shl(w, a1, 1), Shr(a0, w - 1));
      var rest' := Rem(rest, Pow2(w - i - 1));
      && (ab != 0 || s >= b ==>
            Dividing(w, a, b, i + 1, SubWord(w, s, b), BitOr(Shl(w, a0, 1), 1), 2 * done + 1, rest'))
      && (!(ab != 0 || s >= b) ==>
            Dividing(w, a, b, i + 1, s, BitOr(Shl(w, a0, 1), 0), 2 * done, rest'))
  {
    hide Pow2;
    hide BitOr;
    hide Shl;
    hide Shr;
    hide SubWord;
    hide Dividing;
    var bit, rest' := ShiftRound(w, a, b, i, a1, a0, done, rest);
    DividingBounds(w, a, b, i, a1, a0, done, rest);
    HighWordStep(w, a1, bit);
    var ab, s := Shr(a1, w - 1), BitOr(Shl(w, a1, 1), bit);
    var v := 2 * a1 + bit;
    if ab != 0 || s >= b {
      SubWordIs(w, s, b, ab);
      QuotientBit(done, b, v);
      DividingNext(w, a, b, i, done, rest', v - b, 1);
    } else {
      DividingNext(w, a, b, i, done, rest', v, 0);
    }
  }

  lemma DividingBounds(w: nat, a: nat, b: nat, i: nat, a1: nat, a0: nat, done: nat, rest: nat)
    requires Dividing(w, a, b, i, a1, a0, done, rest)
    ensures a1 < b < Pow2(w) && done < Pow2(i)
  {
  }

  /** The bit read from `a0` and what it means for the value being divided. */
  lemma ShiftRound(w: nat, a: nat, b: nat, i: nat, a1: nat, a0: nat, done: nat, rest: nat)
    returns (bit: nat, rest': nat)
    requires i < w && Dividing(w, a, b, i, a1, a0, done, rest)
    ensures bit == Shr(a0, w - 1) <= 1 && rest' == Rem(rest, Pow2(w - i - 1)) < Pow2(w - i - 1)
    ensures BitOr(Shl(w, a0, 1), 0) == rest' * Pow2(i + 1) + 2 * done
    ensures BitOr(Shl(w, a0, 1), 1) == rest' * Pow2(i + 1) + (2 * done + 1)
    ensures a == ((2 * done) * b + (2 * a1 + bit)) * Pow2(w - i - 1) + rest'
  {
    hide Pow2;
    hide BitOr;
    hide Shl;
    hide Shr;
    var half := Pow2(w - i - 1);
    HalvePow(w - i);
    bit, rest' := Quot(rest, half), Rem(rest, half);
    SplitAt(rest, half);
    LowWordStep(w, i, a0, done, bit, rest');
    ReadBit(a, b, done, a1, bit, half, rest');
  }

  lemma DividingNext(w: nat, a: nat, b: nat, i: nat, done: nat, rest: nat, v: nat, qb: nat)
    requires i < w && b < Pow2(w) && done < Pow2(i) && rest < Pow2(w - i - 1)
    requires qb <= 1 && v < b
    requires a == ((2 * done + qb) * b + v) * Pow2(w - i - 1) + rest
    ensures Dividing(w, a, b, i + 1, v, rest * Pow2(i + 1) + (2 * done + qb), 2 * done + qb, rest)
  {
    HalvePow(i + 1);
    hide Pow2;
    assert w - (i + 1) == w - i - 1;
  }

  lemma SubWordIs(w: nat, s: nat, b: nat, ab: nat)
    requires ab <= 1 && s < Pow2(w) && b < Pow2(w) && (ab == 1 || s >= b)
    requires s + (if ab == 1 then Pow2(w) else 0) - b < Pow2(w)
    ensures SubWord(w, s, b) == s + (if ab == 1 then Pow2(w) else 0) - b
  {
    hide Pow2;
    var p := Pow2(w);
    if ab == 1 {
      DivUnique(s - b, p, -1, s + p - b);
    } else {
      ModSmall(s - b, p);
    }
  }

  lemma QuotientBit(q: int, b: int, v: int)
    ensures (2 * q + 1) * b + (v - b) == (2 * q) * b + v
  {
    Distribute(2 * q, 1, b);
  }

  lemma ReadBit(a: int, b: int, q: int, a1: int, bit: int, half: int, rest: int)
    requires a == (q * b + a1) * (2 * half) + (bit * half + rest)
    ensures a == ((2 * q) * b + (2 * a1 + bit)) * half + rest
  {
    Distribute(2 * (q * b + a1), bit, half);
    assert (q * b + a1) * (2 * half) == (2 * (q * b + a1)) * half;
    assert (2 * q) * b == 2 * (q * b);
  }

  lemma LowWordStep(w: nat, i: nat, a0: nat, q: nat, bit: nat, rest: nat)
    requires i < w && q < Pow2(i) && rest < Pow2(w - i - 1) && bit * Pow2(w - i - 1) + rest < Pow2(w - i)
    requires a0 == (bit * Pow2(w - i - 1) + rest) * Pow2(i) + q
    ensures bit <= 1 && Shr(a0, w - 1) == bit
    ensures BitOr(Shl(w, a0, 1), 0) == rest * Pow2(i + 1) + 2 * q
    ensures BitOr(Shl(w, a0, 1), 1) == rest * Pow2(i + 1) + (2 * q + 1)
  {
    hide Pow2;
    hide BitOr;
    hide Quot;
    hide Rem;
    HalvePow(w - i);
    HalvePow(w);
    HalvePow(i + 1);
    OnePow();
    Pow2Add(w - i - 1, i);
    LowWordSplit(Pow2(w - i - 1), Pow2(i), Pow2(w - 1), a0, q, bit, rest);
    EvenOr(Shl(w, a0, 1), rest * Pow2(i) + q);
    Double2(rest, Pow2(i));
  }

  lemma EvenOr(x: nat, h: int)
    requires x == 2 * h
    ensures BitOr(x, 0) == 2 * h && BitOr(x, 1) == 2 * h + 1
  {
    hide BitOr;
    BitOrBit(x, 0);
    BitOrBit(x, 1);
  }

  lemma LowWordSplit(half: nat, s: nat, t: nat, a0: nat, q: nat, bit: nat, rest: nat)
    requires half >= 1 && s >= 1 && t == half * s
    requires q < s && rest < half && bit * half + rest < 2 * half
    requires a0 == (bit * half + rest) * s + q
    ensures bit <= 1 && Quot(a0, t) == bit
    ensures Rem(a0 * 2, 2 * t) == 2 * (rest * s + q)
  {
    if bit >= 2 {
      MulOrder(2, bit, half);
    }
    MulAssoc(bit, half, s);
    Distribute(bit * half, rest, s);
    var low := rest * s + q;
    MulOrder(rest + 1, half, s);
    Distribute(rest, 1, s);
    DivUnique(a0, t, bit, low);
    DivUnique(a0 * 2, 2 * t, bit, 2 * low);
  }

  lemma HighWordStep(w: nat, a1: nat, bit: nat)
    requires w >= 1 && a1 < Pow2(w) && bit <= 1
    ensures var ab := Shr(a1, w - 1);
      var s := BitOr(Shl(w, a1, 1), bit);
      ab <= 1 && s < Pow2(w) && s == 2 * a1 + bit - (if ab == 1 then Pow2(w) else 0)
  {
    hide Pow2;
    hide BitOr;
    HalvePow(w);
    OnePow();
    var t := Pow2(w - 1);
    var ab, low := Quot(a1, t), Rem(a1, t);
    SplitAt(a1, t);
    if ab >= 2 {
      MulOrder(2, ab, t);
    }
    DivUnique(a1 * 2, Pow2(w), ab, 2 * low);
    BitOrBit(2 * low, bit);
  }

  // ---------- square root ----------

  /** `s` is the integer square root of `a`. */
  ghost predicate IsRoot(s: nat, a: nat) {
    s * s <= a < (s + 1) * (s + 1)
  }

  lemma SquareMono(s: nat, t: nat)
    requires s <= t
    ensures s * s <= t * t
  {
  }

  ghost predicate AtLeastRoot(s: nat, a: nat) {
    a < (s + 1) * (s + 1)
  }

  /** `u = ((a / s) + s) / 2`. */
  function NewtonNext(a: nat, s: nat): nat
    requires s >= 1
  {
    (Quot(a, s) + s) / 2
  }

  /** Newton's step never falls below the root, wherever it starts. */
  lemma NewtonAbove(a: nat, s: nat)
    requires s >= 1
    ensures AtLeastRoot(NewtonNext(a, s), a)
    ensures a > 0 ==> NewtonNext(a, s) >= 1
  {
    DivMod(a, s);
    var q := Quot(a, s);
    var u := (q + s) / 2;
    Distribute(q, 1, s);
    MeanSquare(q + 1, s);
    SquareMono(q + 1 + s, 2 * (u + 1));
    assert (2 * (u + 1)) * (2 * (u + 1)) == 4 * ((u + 1) * (u + 1));
  }

  lemma MeanSquare(x: nat, y: nat)
    ensures 4 * (x * y) <= (x + y) * (x + y)
  {
    assert (x + y) * (x + y) == 4 * (x * y) + (x - y) * (x - y);
    Square(x - y);
  }

  lemma Square(d: int)
    ensures d * d >= 0
  {
  }

  /** When Newton's step does not decrease, its argument is at most the root. */
  lemma NewtonStops(a: nat, s: nat)
    requires s >= 1 && NewtonNext(a, s) >= s
    ensures s * s <= a
    ensures IsRoot(s, a) <==> AtLeastRoot(s, a)
  {
    DivMod(a, s);
    MulOrder(s, a / s, s);
  }

  lemma AtLeastUp(s: nat, t: nat, a: nat)
    requires AtLeastRoot(s, a) && s <= t
    ensures AtLeastRoot(t, a)
  {
    SquareMono(s + 1, t + 1);
  }

  /** The position `l` the iteration starts from: `2^l >= a`, except that a low word may
      exceed a power-of-two high word (softfp_template.h:664-673). */
  function StartBits(w: nat, ah: nat, al: nat): nat
    requires ah < Pow2(w) && al < Pow2(w) && (ah > 0 || al > 0)
  {
    if ah != 0 then 2 * w - Clz(w, ah - 1) else w - Clz(w, al - 1)
  }

  function Start(w: nat, ah: nat, al: nat): nat
    requires ah < Pow2(w) && al < Pow2(w) && (ah > 0 || al > 0)
  {
    Pow2((StartBits(w, ah, al) + 1) / 2)
  }

  /** sqrtrem_u where a double-width type exists. The iteration only decreases, so the
      result is the integer root exactly when the starting point is not below it. */
  method SqrtRemWide(w: nat, ah: nat, al: nat) returns (s: nat, inexact: bool)
    requires ah < Pow2(w) && al < Pow2(w)
    ensures ah * Pow2(w) + al == 0 <==> ah == 0 && al == 0
    ensures var a := ah * Pow2(w) + al;
      && inexact == (s * s != a)
      && (a == 0 ==> s == 0)
      && (a > 0 ==> (IsRoot(s, a) <==> AtLeastRoot(Start(w, ah, al), a)))
  {
    hide Pow2;
    hide Clz;
    hide Start;
    hide StartBits;
    hide NewtonNext;
    hide AtLeastRoot;
    hide IsRoot;
    WordZero(ah, al, Pow2(w));
    if ah == 0 && al == 0 {
      return 0, false;
    }
    var l := StartBits(w, ah, al);
    var a := ah * Pow2(w) + al;
    var u := Pow2((l + 1) / 2);
    ghost var start := Start(w, ah, al);
    StartIs(w, ah, al);
    s := u;
    NewtonAbove(a, s);
    u := NewtonNext(a, s);
    while u < s
      invariant 1 <= s <= start && u == NewtonNext(a, s) && u >= 1 && AtLeastRoot(u, a)
      invariant s == start || (AtLeastRoot(s, a) && AtLeastRoot(start, a))
      decreases s
    {
      AtLeastUp(u, start, a);
      s := u;
      NewtonAbove(a, s);
      u := NewtonNext(a, s);
    }
    NewtonStops(a, s);
    inexact := a - s * s != 0;
  }

  lemma StartIs(w: nat, ah: nat, al: nat)
    requires ah < Pow2(w) && al < Pow2(w) && (ah > 0 || al > 0)
    ensures Start(w, ah, al) == Pow2((StartBits(w, ah, al) + 1) / 2)
  {
  }

  lemma WordZero(ah: nat, al: nat, p: nat)
    requires p >= 1
    ensures ah * p + al == 0 <==> ah == 0 && al == 0
  {
    if ah > 0 {
      MulOrder(1, ah, p);
    }
  }

  /** The inputs on which the iteration starts below the root: the high word is a power of
      two at an even position and the low word exceeds twice the starting point. */
  predicate StartTooLow(w: nat, ah: nat, al: nat) {
    ah != 0 &&
    var b := BitLen(ah - 1);
    ah == Pow2(b) && (w + b) % 2 == 0 && al > 2 * Pow2((w + b) / 2)
  }

  lemma StartIff(w: nat, ah: nat, al: nat, a: nat)
    requires ah < Pow2(w) && al < Pow2(w) && (ah > 0 || al > 0) && a == ah * Pow2(w) + al
    ensures AtLeastRoot(Start(w, ah, al), a) <==> !StartTooLow(w, ah, al)
  {
    hide Pow2;
    hide BitLen;
    hide AtLeastRoot;
    if ah == 0 {
      var l := StartBits(w, ah, al);
      CeilSquare(l);
      BitLenBound(al - 1, w);
      BitLenTop(al - 1);
      StartLow(Pow2((l + 1) / 2), Pow2(l), al);
      assert a == al;
    } else {
      StartIffHigh(w, ah, al, a);
    }
  }

  lemma StartIffHigh(w: nat, ah: nat, al: nat, a: nat)
    requires 0 < ah < Pow2(w) && al < Pow2(w) && a == ah * Pow2(w) + al
    ensures AtLeastRoot(Start(w, ah, al), a) <==> !StartTooLow(w, ah, al)
  {
    hide Pow2;
    hide BitLen;
    hide AtLeastRoot;
    BitLenBound(ah - 1, w);
    var b := BitLen(ah - 1);
    var l := w + b;
    assert StartBits(w, ah, al) == l && Start(w, ah, al) == Pow2((l + 1) / 2);
    assert StartTooLow(w, ah, al) <==> ah == Pow2(b) && l % 2 == 0 && al > 2 * Pow2(l / 2);
    hide Start;
    hide StartBits;
    hide StartTooLow;
    BitLenTop(ah - 1);
    if l % 2 == 0 {
      StartEven(w, b, l / 2, ah, al);
    } else {
      StartOdd(w, b, (l + 1) / 2, ah, al);
    }
  }

  lemma StartEven(w: nat, b: nat, k: nat, ah: nat, al: nat)
    requires 0 < ah <= Pow2(b) && al < Pow2(w) && w + b == 2 * k
    ensures AtLeastRoot(Pow2(k), ah * Pow2(w) + al) <==> !(ah == Pow2(b) && al > 2 * Pow2(k))
  {
    hide *;
    Pow2Add(b, w);
    Pow2Add(k, k);
    Pow2Mono(w, 2 * k);
    StartHigh(Pow2(k), Pow2(b), Pow2(w), true, ah, al);
  }

  lemma StartOdd(w: nat, b: nat, k: nat, ah: nat, al: nat)
    requires 0 < ah <= Pow2(b) && al < Pow2(w) && w + b == 2 * k - 1
    ensures AtLeastRoot(Pow2(k), ah * Pow2(w) + al)
  {
    hide *;
    Pow2Add(b, w);
    Pow2Add(k, k);
    HalvePow(2 * k);
    Pow2Mono(w, 2 * k - 1);
    StartHigh(Pow2(k), Pow2(b), Pow2(w), false, ah, al);
  }

  lemma StartLow(u: nat, p: nat, al: nat)
    requires al <= p && u * u >= p
    ensures AtLeastRoot(u, al)
  {
    SquareSucc(u);
  }

  lemma StartHigh(u: nat, pb: nat, pw: nat, even: bool, ah: nat, al: nat)
    requires 0 < ah <= pb && al < pw <= pb * pw
    requires u * u == if even then pb * pw else 2 * (pb * pw)
    ensures AtLeastRoot(u, ah * pw + al) <==> !(ah == pb && even && al > 2 * u)
  {
    SquareSucc(u);
    if ah < pb {
      MulOrder(ah + 1, pb, pw);
      Distribute(ah, 1, pw);
    }
  }

  lemma BitLenTop(a: nat)
    ensures a < Pow2(BitLen(a))
  {
  }

  lemma SquareSucc(u: nat)
    ensures (u + 1) * (u + 1) == u * u + 2 * u + 1
  {
  }

  lemma CeilSquare(l: nat)
    ensures var u := Pow2((l + 1) / 2);
      u * u == if l % 2 == 0 then Pow2(l) else 2 * Pow2(l)
  {
    hide Pow2;
    var k := (l + 1) / 2;
    Pow2Add(k, k);
    if l % 2 == 1 {
      HalvePow(l + 1);
    }
  }

  /** The header comment of sqrtrem_u does not hold for every `ah` and `al`: from
      `2^64 + 2^63` the iteration stops at `2^32` and misses the root. */
  lemma StartTooLowExample()
    ensures Pow2(63) < Pow2(64) && StartTooLow(64, 1, Pow2(63))
    ensures !AtLeastRoot(Start(64, 1, Pow2(63)), Pow2(64) + Pow2(63))
  {
    hide Pow2;
    assert BitLen(0) == 0;
    OnePow();
    Pow2Mono(34, 63);
    Pow2Add(1, 32);
    Pow2Mono(33, 34);
    HalvePow(64);
    StartIff(64, 1, Pow2(63), Pow2(64) + Pow2(63));
  }

  /** With no low word, as sqrt_sf calls it, the iteration always starts high enough. */
  lemma StartHighEnough(w: nat, ah: nat)
    requires 0 < ah < Pow2(w)
    ensures AtLeastRoot(Start(w, ah, 0), ah * Pow2(w))
  {
    hide Pow2;
    hide Start;
    hide AtLeastRoot;
    hide BitLen;
    StartIff(w, ah, 0, ah * Pow2(w));
  }

  /** The word-sized sqrtrem_u. Every division meets its assertion `a1 < b` and every sum
      `q + s` stays inside a word, with one exception: for the largest operand the sum is the
      word size, the next divisor is 0, and the assertion fails. */
  method SqrtRemWord(f: Format, a1: nat, a0: nat) returns (s: nat, inexact: bool, aborted: bool)
    requires f.Valid() && a1 < Pow2(f.size - 2) && a0 < Pow2(f.size)
    ensures a1 < Pow2(f.size)
    ensures var a := a1 * Pow2(f.size) + a0;
      && (aborted <==> a == Pow2(2 * f.size - 2) - 1)
      && (a == 0 <==> a1 == 0 && a0 == 0)
      && (!aborted ==> && s < Pow2(f.size) && inexact == (s * s != a) && (a == 0 ==> s == 0)
                       && (a > 0 ==> (IsRoot(s, a) <==> AtLeastRoot(Start(f.size, a1, a0), a))))
  {
    hide Pow2;
    hide Clz;
    hide Start;
    hide StartBits;
    hide AtLeastRoot;
    hide IsRoot;
    hide NewtonNext;
    hide NewtonReady;
    hide Rem;
    var w := f.size;
    ghost var a := a1 * Pow2(w) + a0;
    ghost var h := Pow2(w - 1);
    Pow2Mono(w - 2, w);
    Pow2Mono(w - 1, w);
    WordZero(a1, a0, Pow2(w));
    LargestOperand(w);
    if a1 == 0 && a0 == 0 {
      return 0, false, false;
    }
    ghost var start := Start(w, a1, a0);
    StartIs(w, a1, a0);
    StartWord(w, a1, a0);
    var u: nat := Pow2((StartBits(w, a1, a0) + 1) / 2);
    s := u;
    var done := false;
    while !done
      invariant u <= h && s <= start <= h && 1 <= s
      invariant u == 0 ==> a == h * h - 1
      invariant !done && u > 0 ==> u <= start && NewtonReady(w, a1, a0, u)
      invariant done ==> s <= start && NewtonReady(w, a1, a0, s) && NewtonNext(a, s) >= s && a != h * h - 1
      decreases if done then 0 else u + 1
    {
      if u <= a1 {
        DivisionMeets(w, a1, a0, u);
        return u, false, true;
      }
      s := u;
      ReadyStep(w, a1, a0, s, a);
      var q, r := DivRemU(f, a1, a0, s);
      QuotUnique(a, s, q, r);
      u := Rem(q + s, Pow2(w)) / 2;
      done := u >= s;
    }
    assert s >= 1 by { ReadyPositive(w, a1, a0, s); }
    NewtonStops(a, s);
    ReadyRoot(w, a1, a0, s, a);
    var sq1, sq0 := MulU(f, s, s);
    WordPairs(sq1, sq0, a1, a0, Pow2(w));
    inexact := sq0 != a0 || sq1 != a1;
    aborted := false;
  }

  /** What every divisor of the loop satisfies. */
  ghost predicate NewtonReady(w: nat, a1: nat, a0: nat, s: nat)
    requires w >= 2 && a1 < Pow2(w) && a0 < Pow2(w) && (a1 > 0 || a0 > 0)
  {
    var a := a1 * Pow2(w) + a0;
    && 1 <= s <= Pow2(w - 1) && AtLeastRoot(s, a1 * Pow2(w))
    && (AtLeastRoot(s, a) || s == Start(w, a1, a0))
  }

  lemma ReadyPositive(w: nat, a1: nat, a0: nat, s: nat)
    requires w >= 2 && a1 < Pow2(w) && a0 < Pow2(w) && (a1 > 0 || a0 > 0) && NewtonReady(w, a1, a0, s)
    ensures 1 <= s <= Pow2(w - 1)
  {
    hide Pow2;
  }

  lemma ReadyRoot(w: nat, a1: nat, a0: nat, s: nat, a: nat)
    requires w >= 2 && a1 < Pow2(w) && a0 < Pow2(w) && (a1 > 0 || a0 > 0) && a == a1 * Pow2(w) + a0
    requires NewtonReady(w, a1, a0, s) && s <= Start(w, a1, a0)
    ensures AtLeastRoot(s, a) <==> AtLeastRoot(Start(w, a1, a0), a)
  {
    hide Pow2;
    hide Start;
    hide AtLeastRoot;
    if AtLeastRoot(s, a) {
      AtLeastUp(s, Start(w, a1, a0), a);
    }
  }

  lemma LargestOperand(w: nat)
    requires w >= 2
    ensures Pow2(2 * w - 2) == Pow2(w - 1) * Pow2(w - 1) && Pow2(w) == 2 * Pow2(w - 1) == 4 * Pow2(w - 2)
  {
    HalvePow(w);
    HalvePow(w - 1);
    hide Pow2;
    Pow2Add(w - 1, w - 1);
  }

  lemma StartWord(w: nat, a1: nat, a0: nat)
    requires w >= 2 && w % 2 == 0 && a1 < Pow2(w - 2) <= Pow2(w) && a0 < Pow2(w) && (a1 > 0 || a0 > 0)
    ensures 1 <= Start(w, a1, a0) <= Pow2(w - 1) && NewtonReady(w, a1, a0, Start(w, a1, a0))
  {
    hide Pow2;
    hide BitLen;
    hide AtLeastRoot;
    var l := StartBits(w, a1, a0);
    if a1 > 0 {
      BitLenBound(a1 - 1, w - 2);
      BitLenBound(a1 - 1, w);
      assert l <= 2 * w - 2;
      StartSame(w, a1, a0);
      StartHighEnough(w, a1);
    } else {
      BitLenBound(a0 - 1, w);
      assert l <= w;
      NothingBelow(Start(w, a1, a0), a1 * Pow2(w));
    }
    Pow2Mono((l + 1) / 2, w - 1);
    Pow2Mono(0, (l + 1) / 2);
    OnePow();
  }

  lemma NothingBelow(s: nat, a: nat)
    requires a == 0
    ensures AtLeastRoot(s, a)
  {
    SquareSucc(s);
  }

  /** The start does not depend on the low word. */
  lemma StartSame(w: nat, a1: nat, a0: nat)
    requires 0 < a1 < Pow2(w) && a0 < Pow2(w)
    ensures Start(w, a1, a0) == Start(w, a1, 0)
  {
    assert StartBits(w, a1, a0) == StartBits(w, a1, 0);
    StartIs(w, a1, a0);
    StartIs(w, a1, 0);
    hide *;
  }

  /** The assertion of the division fails for a divisor of 0 only. */
  lemma DivisionMeets(w: nat, a1: nat, a0: nat, u: nat)
    requires w >= 2 && a1 < Pow2(w - 2) <= Pow2(w) && a0 < Pow2(w) && (a1 > 0 || a0 > 0)
    requires u > 0 ==> NewtonReady(w, a1, a0, u)
    requires u <= a1
    ensures u == 0
  {
    hide Pow2;
    if u > 0 {
      WordStep(w, a1, u);
    }
  }

  /** One turn of the loop: the next value is ready or not smaller, and 0 for one operand only. */
  lemma ReadyStep(w: nat, a1: nat, a0: nat, s: nat, a: nat)
    requires w >= 4 && w % 2 == 0 && a1 < Pow2(w - 2) <= Pow2(w) && a0 < Pow2(w) && (a1 > 0 || a0 > 0)
    requires NewtonReady(w, a1, a0, s) && a == a1 * Pow2(w) + a0
    ensures 0 < s < Pow2(w)
    ensures var u, h := Rem(Quot(a, s) + s, Pow2(w)) / 2, Pow2(w - 1);
      && u <= h
      && (u == 0 ==> a == h * h - 1)
      && (0 < u <= s ==> NewtonReady(w, a1, a0, u))
      && (u >= s ==> NewtonNext(a, s) >= s && a != h * h - 1)
  {
    hide Pow2;
    hide Start;
    hide Rem;
    var h, p := Pow2(w - 1), Pow2(w);
    LargestOperand(w);
    SumOfReady(w, a1, a0, s, a);
    var sum := Quot(a, s) + s;
    NewtonAbove(a, s);
    RootBelow(NewtonNext(a, s), a1 * p, a);
    hide AtLeastRoot;
    if sum < p {
      RemBelow(sum, p);
      assert Rem(sum, p) / 2 == NewtonNext(a, s);
    } else {
      RemSelf(p);
    }
  }

  lemma RemBelow(x: nat, p: nat)
    requires x < p
    ensures Rem(x, p) == x
  {
    ModSmall(x, p);
  }

  lemma RemSelf(p: nat)
    requires p >= 1
    ensures Rem(p, p) == 0
  {
    DivUnique(p, p, 1, 0);
  }

  lemma SumOfReady(w: nat, a1: nat, a0: nat, s: nat, a: nat)
    requires w >= 4 && w % 2 == 0 && a1 < Pow2(w - 2) <= Pow2(w) && a0 < Pow2(w) && (a1 > 0 || a0 > 0)
    requires NewtonReady(w, a1, a0, s) && a == a1 * Pow2(w) + a0 > 0
    ensures var sum, h, p := Quot(a, s) + s, Pow2(w - 1), Pow2(w);
      && sum <= p
      && (sum == p ==> a == h * h - 1)
      && (a == h * h - 1 ==> sum == p || sum / 2 < s)
  {
    hide Pow2;
    hide Start;
    var h, p := Pow2(w - 1), Pow2(w);
    var q := Quot(a, s);
    LargestOperand(w);
    if AtLeastRoot(s, a) {
      MulOrder(a1 + 1, Pow2(w - 2), p);
      Distribute(a1, 1, p);
      BelowSquare(h, Pow2(w - 2), p);
      DivMod(a, s);
      SquareSucc(s);
      Distribute(q, 1, s);
      SumCases(a, q, s, h);
    } else {
      hide AtLeastRoot;
      LowStart(w, a1, a0, s, a);
    }
  }

  lemma RootBelow(u: nat, b: nat, a: nat)
    requires AtLeastRoot(u, a) && b <= a
    ensures AtLeastRoot(u, b)
  {
  }

  lemma BelowSquare(h: nat, k: nat, p: nat)
    requires p == 4 * k && h == 2 * k
    ensures k * p == h * h
  {
  }

  lemma SumCases(a: nat, q: nat, s: nat, h: nat)
    requires 1 <= s <= h && h >= 2 && q * s <= a < h * h && a <= s * s + 2 * s && a < (q + 1) * s
    ensures q + s <= 2 * h
    ensures q + s == 2 * h <==> a == h * h - 1 && s == h - 1
    ensures a == h * h - 1 ==> s >= h - 1 && (s == h ==> (q + s) / 2 < s)
  {
    SquareSucc(s);
    if s == h {
      MulOrder(h, q, s);
    } else if s == h - 1 {
      assert s * s + 2 * s == h * h - 1 by { SquareSucc(h - 1); }
      assert (h + 1) * s == h * h - 1 by { Distribute(h, 1, s); Distribute(h, -1, h); }
      MulOrder(h + 2, q, s);
      MulOrder(h + 1, q, s);
      Distribute(h + 1, 1, s);
      MulOrder(q + 1, h + 1, s);
    } else {
      MulOrder(s + 3, q, s);
      Distribute(s, 3, s);
      SquareMono(s + 2, h);
      assert (s + 2) * (s + 2) == s * s + 4 * s + 4;
    }
  }

  /** A start below the root: the loop stops at once, with the sum well inside a word. */
  lemma LowStart(w: nat, a1: nat, a0: nat, s: nat, a: nat)
    requires w >= 4 && w % 2 == 0 && a1 < Pow2(w - 2) <= Pow2(w) && a0 < Pow2(w) && (a1 > 0 || a0 > 0)
    requires a == a1 * Pow2(w) + a0 && s == Start(w, a1, a0) && s >= 1 && !AtLeastRoot(s, a)
    ensures Quot(a, s) + s < Pow2(w)
    ensures a != Pow2(w - 1) * Pow2(w - 1) - 1
  {
    hide Pow2;
    hide BitLen;
    hide AtLeastRoot;
    StartIff(w, a1, a0, a);
    hide Start;
    var b := BitLen(a1 - 1);
    BitLenBound(a1 - 1, w);
    LowStartBits(w, b, a1, a0, s);
    hide StartTooLow;
    LowSum(Pow2(w), Pow2(w - 1), s, a, a0);
  }

  lemma LowStartBits(w: nat, b: nat, a1: nat, a0: nat, s: nat)
    requires w >= 4 && w % 2 == 0 && 0 < a1 < Pow2(w - 2) <= Pow2(w) && a0 < Pow2(w)
    requires b == BitLen(a1 - 1) <= w && StartTooLow(w, a1, a0) && s == Start(w, a1, a0)
    ensures s * s == a1 * Pow2(w) && 2 <= s && 2 * s <= Pow2(w - 1) && a0 > 2 * s
    ensures Pow2(w) == 2 * Pow2(w - 1)
  {
    hide Pow2;
    hide BitLen;
    var k := (w + b) / 2;
    assert s == Pow2(k) by { assert StartBits(w, a1, a0) == w + b; }
    Pow2Add(b, w);
    Pow2Add(k, k);
    HalvePow(w);
    PowBelow(b, w - 2);
    HalvePow(k + 1);
    Pow2Mono(k + 1, w - 1);
    Pow2Mono(1, k);
    OnePow();
  }

  lemma PowBelow(b: nat, c: nat)
    requires Pow2(b) < Pow2(c)
    ensures b < c
  {
    hide Pow2;
    if c <= b {
      Pow2Mono(c, b);
    }
  }

  lemma LowSum(p: nat, h: nat, s: nat, a: nat, a0: nat)
    requires p == 2 * h && a == s * s + a0 && a0 < p && s >= 2 && 2 * s <= h
    ensures Quot(a, s) + s < p
    ensures a != h * h - 1
  {
    var d := Quot(a0, s);
    DivMod(a0, s);
    DivNonneg(a0, s);
    Distribute(s, d, s);
    DivUnique(a, s, s + d, a0 % s);
    if d >= h {
      MulOrder(h, d, s);
      MulOrder(2, s, h);
    }
    LowSquare(h, s, a0);
  }

  lemma LowSquare(h: nat, s: nat, a0: nat)
    requires s >= 2 && 2 * s <= h && a0 < 2 * h
    ensures s * s + a0 < h * h - 1
  {
    SquareMono(2 * s, h);
    assert (2 * s) * (2 * s) == 4 * (s * s);
    MulOrder(4, h, h);
  }

  lemma WordPairs(h: nat, l: nat, h': nat, l': nat, p: nat)
    requires l < p && l' < p
    ensures h * p + l == h' * p + l' <==> h == h' && l == l'
  {
    if h * p + l == h' * p + l' {
      DivUnique(h * p + l, p, h, l);
      DivUnique(h' * p + l', p, h', l');
    }
  }

  lemma QuotUnique(a: nat, s: nat, q: nat, r: nat)
    requires s >= 1 && q * s + r == a && r < s
    ensures q == Quot(a, s)
  {
    DivUnique(a, s, q, r);
  }

  /** Anything not below the root of `a1 * 2^w` exceeds `a1`. */
  lemma WordStep(w: nat, a1: nat, s: nat)
    requires w >= 2 && a1 < Pow2(w - 2) && AtLeastRoot(s, a1 * Pow2(w)) && 1 <= s <= Pow2(w - 1)
    ensures a1 < s < Pow2(w)
  {
    hide Pow2;
    HalvePow(w);
    HalvePow(w - 1);
    if s <= a1 {
      BelowItself(a1, s, Pow2(w - 2), Pow2(w));
    }
  }

  lemma BelowItself(a1: nat, s: nat, k: nat, p: nat)
    requires 0 < a1 < k && p == 4 * k && s <= a1
    ensures !AtLeastRoot(s, a1 * p)
  {
    SquareMono(s + 1, a1 + 1);
    SquareSucc(a1);
    MulOrder(4 * (a1 + 1), p, a1);
    assert (4 * (a1 + 1)) * a1 == 4 * (a1 * a1) + 4 * a1;
    MulOrder(1, a1, a1);
  }
}
