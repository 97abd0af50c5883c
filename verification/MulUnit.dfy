/** The multiplication instructions and the routines for high halves together
    (instructions.c:40-82, 797-836). */
module MulUnit {
  import opened Bits
  import A = WordArith
  import W = Words

  /** mul, mulh, mulhsu and mulhu on two register contents. */
  method Multiply(f3: bv32, m: nat, n: nat) returns (r: nat)
    requires f3 <= 3 && m < W.WORD && n < W.WORD
    ensures r == W.MulDivNum(f3, m, n) % W.WORD
  {
    W.WordSize();
    HalfWord();
    hide Pow2;
    match f3 {
      case 0 =>
        r := m * n % W.WORD;
        SignedProduct(m, n);
      case 1 => r := A.Mulh(m, n);
      case 2 => r := A.Mulhsu(m, n);
      case _ =>
        r := A.Mulhu(m, n);
        DivUnique(r, W.WORD, 0, r);
    }
  }

  lemma HalfWord()
    ensures Pow2(63) == W.WORD / 2
  {
    W.WordSize();
    assert Pow2(64) == 2 * Pow2(63);
  }

  /** The low half of a product does not depend on the signs its factors are read with. */
  lemma SignedProduct(m: nat, n: nat)
    requires m < W.WORD && n < W.WORD
    ensures W.Signed(m, W.WORD / 2) * W.Signed(n, W.WORD / 2) % W.WORD == m * n % W.WORD
  {
    var a, b := W.Signed(m, W.WORD / 2), W.Signed(n, W.WORD / 2);
    var i, j := if a < 0 then 1 else 0, if b < 0 then 1 else 0;
    assert a == m - i * W.WORD && b == n - j * W.WORD;
    var k := i * j * W.WORD - i * n - j * m;
    assert a * b == m * n + k * W.WORD;
    var p := m * n;
    DivMod(p, W.WORD);
    Distribute(p / W.WORD, k, W.WORD);
    DivUnique(p + k * W.WORD, W.WORD, p / W.WORD + k, p % W.WORD);
  }
}
