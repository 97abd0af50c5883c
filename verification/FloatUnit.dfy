/** The floating-point instructions and the soft-float library together: what the interpreter
    leaves in its registers is what the library computes (instructions.c:1164-1716). */
module FloatUnit {
  import opened Bits
  import opened Ieee
  import opened SoftFpRound
  import opened Operand
  import opened SoftFpAdd
  import opened SoftFpMul
  import opened SoftFpDiv
  import opened SoftFpFma
  import opened SoftFpCvt
  import opened SoftFpInt
  import C = Core
  import D = RvcDecode
  import R = Rvc
  import W = Words

  // ---------- registers and words ----------

  function FormatOf(dbl: bool): (f: Format)
    ensures f.size in {32, 64}
  {
    if dbl then SF64 else SF32
  }

  /** The operand a C function with a 32- or 64-bit parameter receives from a 64-bit register. */
  function WordOf(f: Format, reg: bv64): (w: nat)
    ensures IsWord(f, w)
  {
    W.NumLow(reg, f.size)
  }

  /** The word of a result is found again when its register is read, box or no box. */
  lemma ReadBack(dbl: bool, w: nat)
    requires IsWord(FormatOf(dbl), w)
    ensures WordOf(FormatOf(dbl), if dbl then W.Reg(w) else C.Box(W.Reg(w))) == w
  {
    hide Pow2;
    W.NumOfRegLow(w, FormatOf(dbl).size, 64);
    if !dbl {
      W.UpperClear();
      W.OrKeepsLow(W.Reg(w), W.UPPER_HALF, 32);
      assert C.Box(W.Reg(w)) == W.Or(W.Reg(w), W.UPPER_HALF);
      hide W.NumLow;
      hide W.Reg;
      hide W.Or;
      hide C.Box;
    }
  }

  function ModeOf(rm: int): Mode
    requires 0 <= rm <= 4
  {
    match rm
    case 0 => RNE
    case 1 => RTZ
    case 2 => RDN
    case 3 => RUP
    case _ => RMM
  }

  /** FFLAG_*: the accrued flags as the bits of fflags. */
  function FlagBits(raised: set<Flag>): C.Flags {
    B2N(NV in raised) * 16 + B2N(DZ in raised) * 8 + B2N(OF in raised) * 4 + B2N(UF in raised) * 2 + B2N(NX in raised)
  }

  // ---------- what each operation delivers ----------

  /** The operations whose results are proved: all but comparison, classification and min/max. */
  predicate Rounding(op: C.FloatOp) {
    && 0 <= op.rm <= 4
    && match op.fn
       case Add => true
       case Sub => true
       case Mul => true
       case Div => true
       case Sqrt => true
       case Convert => true
       case Fma(_, _) => true
       case ToInt(kind) => kind <= 3
       case FromInt(kind) => kind <= 3
       case _ => false
  }

  /** The integer types of the conversions: w, wu, l, lu. */
  function IntSize(kind: bv32): (n: nat)
    ensures n in {32, 64}
  {
    if kind <= 1 then 32 else 64
  }

  predicate IntUnsigned(kind: bv32) {
    kind == 1 || kind == 3
  }

  function Flipped(f: Format, flip: bool, w: nat): nat
    requires f.size >= 1
  {
    if flip then FlipSign(f, w) else w
  }

  /** The word and the flags of an operation on three registers, as the soft-float contracts say. */
  ghost predicate Delivers3(op: C.FloatOp, a: bv64, b: bv64, c: bv64, flags: set<Flag>, w: nat)
    requires Rounding(op)
  {
    Formats();
    var f, rm := FormatOf(op.dbl), ModeOf(op.rm);
    var x, y, z := WordOf(f, a), WordOf(f, b), WordOf(f, c);
    match op.fn
    case Add => SumIs(f, rm, x, y, {}, flags, w)
    case Sub => SumIs(f, rm, x, FlipSign(f, y), {}, flags, w)
    case Mul => ProductIs(f, rm, x, y, {}, flags, w)
    case Div => QuotientIs(f, rm, x, y, {}, flags, w)
    case Sqrt => RootIs(f, rm, x, {}, flags, w)
    case Fma(p, q) => FusedIs(f, rm, Flipped(f, p, x), y, Flipped(f, q, z), {}, flags, w)
    case Convert =>
      if op.dbl then WidenIs(SF32, SF64, WordOf(SF32, a), {}, flags, w)
      else NarrowIs(SF64, SF32, rm, WordOf(SF64, a), {}, flags, w)
    case ToInt(kind) => ToIntIs(f, IntSize(kind), IntUnsigned(kind), rm, x, {}, flags, w)
    case FromInt(kind) =>
      var n := IntSize(kind);
      FromIntIs(f, rm, IntValue(n, IntUnsigned(kind), W.NumLow(a, n)), {}, flags, w)
    case _ => false
  }

  /** The register value of a result word: 32-bit integers are sign-extended, both kinds of them. */
  function ValueOf(op: C.FloatOp, w: nat): bv64 {
    if op.fn.ToInt? && op.fn.kind <= 1 then R.Word(W.Reg(w)) else W.Reg(w)
  }

  lemma Formats()
    ensures SF32.Valid() && SF64.Valid() && Wider(SF32, SF64)
  {
    WiderFormats();
    hide Wider;
    hide Format.Valid;
  }

  /** The calls of the floating-point branches. */
  method Compute(op: C.FloatOp, a: bv64, b: bv64, c: bv64) returns (out: C.FpOut, ghost flags: set<Flag>, w: nat)
    requires Rounding(op)
    ensures Delivers3(op, a, b, c, flags, w)
    ensures out == C.FpOut(ValueOf(op, w), FlagBits(flags))
  {
    Formats();
    var fcsr := new Fcsr();
    if op.fn.ToInt? || op.fn.FromInt? || op.fn.Convert? {
      w := ConvertWords(fcsr, op, a);
    } else {
      w := Arithmetic(fcsr, op, a, b, c);
    }
    flags := fcsr.raised;
    out := C.FpOut(ValueOf(op, w), FlagBits(fcsr.raised));
  }

  method Arithmetic(fcsr: Fcsr, op: C.FloatOp, a: bv64, b: bv64, c: bv64) returns (w: nat)
    requires Rounding(op) && fcsr.raised == {} && !op.fn.ToInt? && !op.fn.FromInt? && !op.fn.Convert?
    modifies fcsr
    ensures Delivers3(op, a, b, c, fcsr.raised, w)
  {
    hide Format.Valid;
    hide Pow2;
    hide IsWord;
    hide WordOf;
    hide SumIs;
    hide ProductIs;
    hide QuotientIs;
    hide RootIs;
    hide FusedIs;
    hide FlipSign;
    hide ModeOf;
    Formats();
    var f, rm := FormatOf(op.dbl), ModeOf(op.rm);
    hide FormatOf;
    var x, y, z := WordOf(f, a), WordOf(f, b), WordOf(f, c);
    match op.fn {
      case Add => w := AddSf(fcsr, f, x, y, rm);
      case Sub => w := SubSf(fcsr, f, x, y, rm);
      case Mul => w := MulSf(fcsr, f, x, y, rm);
      case Div => w := DivSf(fcsr, f, x, y, rm);
      case Sqrt => w := SqrtSf(fcsr, f, x, rm);
      case Fma(p, q) =>
        FlipSignIs(f, x);
        FlipSignIs(f, z);
        w := FmaSf(fcsr, f, Flipped(f, p, x), y, Flipped(f, q, z), rm);
    }
  }

  method ConvertWords(fcsr: Fcsr, op: C.FloatOp, a: bv64) returns (w: nat)
    requires Rounding(op) && fcsr.raised == {} && (op.fn.ToInt? || op.fn.FromInt? || op.fn.Convert?)
    modifies fcsr
    ensures forall b, c :: Delivers3(op, a, b, c, fcsr.raised, w)
  {
    hide Format.Valid;
    hide Pow2;
    hide IsWord;
    hide WordOf;
    hide WidenIs;
    hide NarrowIs;
    hide ToIntIs;
    hide FromIntIs;
    hide ModeOf;
    Formats();
    var f, rm := FormatOf(op.dbl), ModeOf(op.rm);
    match op.fn {
      case Convert =>
        if op.dbl {
          w := WidenSf(fcsr, SF32, SF64, WordOf(SF32, a));
        } else {
          w := NarrowSf(fcsr, SF64, SF32, WordOf(SF64, a), rm);
        }
      case ToInt(kind) =>
        IntFits(op.dbl, IntSize(kind));
        w := CvtSfInt(fcsr, f, IntSize(kind), WordOf(f, a), rm, IntUnsigned(kind));
      case FromInt(kind) =>
        var n := IntSize(kind);
        w := CvtIntSf(fcsr, f, n, W.NumLow(a, n), rm, IntUnsigned(kind));
    }
  }

  lemma IntFits(dbl: bool, n: nat)
    requires n in {32, 64}
    ensures var f := FormatOf(dbl); f.exp >= 1 && n <= Pow2(f.exp - 1) && f.mant <= f.Bias()
  {
    assert Pow2(7) == 128;
    Pow2Mono(7, 10);
  }

  // ---------- operands without a box ----------

  /** The single-precision operand the D extension gives an instruction: a register that is
      not boxed counts as the default NaN. */
  function Unboxed(reg: bv64): (w: nat)
    ensures w < Pow2(32)
  {
    WordIs32();
    if C.Boxed(reg) then WordOf(SF32, reg) else SF32.QNaN()
  }

  lemma WordIs32()
    ensures SF32.QNaN() == 0x7FC0_0000 < Pow2(32)
  {
    Sf32Words();
    assert Pow2(4) == 16;
    Pow2Add(4, 4);
    Pow2Add(8, 8);
    Pow2Add(16, 16);
  }

  /** The code takes the low half of every register. That is the operand wanted if and only if
      the register is boxed or its low half happens to be the default NaN. */
  lemma OperandIff(reg: bv64)
    ensures WordOf(SF32, reg) == Unboxed(reg) <==> C.Boxed(reg) || WordOf(SF32, reg) == 0x7FC0_0000
  {
    WordIs32();
    hide C.Boxed;
    hide WordOf;
  }

  /** fadd.s of two registers that hold 0, as after reset, which is not boxed: the code
      delivers 0, where the sum of two default NaNs is wanted. */
  lemma OperandExample(rm: int, flags: set<Flag>, w: nat, flags': set<Flag>, w': nat)
    requires 0 <= rm <= 4 && SF32.Valid() && Delivers3(C.FloatOp(C.Add, false, rm), 0, 0, 0, flags, w)
    requires SumIs(SF32, ModeOf(rm), Unboxed(0), Unboxed(0), {}, flags', w')
    ensures w == 0 && w' == 0x7FC0_0000
  {
    WordIs32();
    W.ZeroLow(32);
    ZeroSum(ModeOf(rm), flags, w);
    NaNSum(ModeOf(rm), flags', w');
  }

  lemma ZeroSum(rm: Mode, flags: set<Flag>, w: nat)
    requires SF32.Valid() && SumIs(SF32, rm, 0, 0, {}, flags, w)
    ensures w == 0
  {
    hide *;
    var f := SF32;
    SpecialMagnitudes(f);
    ZeroFields(f);
    ExactSum(f, rm, flags, w);
    ExactDelivers(f, rm, false, 0, {});
    DeliversUnique(f, rm, false, Num(0.0), {}, flags, w, {}, Encode(f, false, 0));
  }

  lemma ZeroFields(f: Format)
    requires f.Valid()
    ensures f.size >= 1 && !SignOf(f, 0) && Encode(f, false, 0) == 0 && Val(f, false, 0) == 0.0
  {
    hide Pow2;
    DivUnique(0, Pow2(f.size - 1), 0, 0);
  }

  lemma ExactSum(f: Format, rm: Mode, flags: set<Flag>, w: nat)
    requires f.Valid() && SumIs(f, rm, 0, 0, {}, flags, w)
    requires Magnitude(f, 0) == 0 < f.Inf() && !SignOf(f, 0) && Val(f, false, 0) == 0.0
    ensures Delivers(f, rm, false, Num(0.0), {}, flags, w)
  {
    hide Magnitude;
    hide SignOf;
    hide Val;
    hide Format.Inf;
    hide Pow2;
    hide Delivers;
  }

  lemma NaNSum(rm: Mode, flags: set<Flag>, w: nat)
    requires SF32.Valid() && SumIs(SF32, rm, SF32.QNaN(), SF32.QNaN(), {}, flags, w)
    ensures w == SF32.QNaN()
  {
    SpecialMagnitudes(SF32);
    hide Magnitude;
    hide Format.Inf;
    hide Format.QNaN;
  }

  // ---------- results are words ----------

  lemma EncodedWord(f: Format, sign: bool, k: nat)
    requires f.Valid() && k <= f.QNaN()
    ensures IsWord(f, Encode(f, sign, k)) && IsWord(f, k)
  {
    hide Pow2;
    InfAtLeast(f);
    Pow2Add(f.exp, f.mant);
    Pow2Add(1, f.mant - 1);
    OnePow();
    Distribute(f.ExpMask(), 1, Pow2(f.mant));
    HalvePow(f.size);
    assert f.exp + f.mant == f.size - 1;
  }

  lemma DeliveredWord(f: Format, rm: Mode, sign: bool, x: Exact, flags: set<Flag>, w: nat)
    requires f.Valid() && Delivers(f, rm, sign, x, {}, flags, w)
    ensures IsWord(f, w)
  {
    hide RoundsTo;
    hide Raised;
    hide Encode;
    InfAtLeast(f);
    var k: nat :| RoundsTo(f, false, rm, sign, x, k) && w == Encode(f, sign, Delivered(f, rm, sign, k))
      && flags == {} + Raised(f, rm, sign, x, k);
    hide Pow2;
    EncodedWord(f, sign, Delivered(f, rm, sign, k));
  }

  lemma SumWord(f: Format, rm: Mode, a: nat, b: nat, flags: set<Flag>, w: nat)
    requires f.Valid() && IsWord(f, a) && IsWord(f, b) && SumIs(f, rm, a, b, {}, flags, w)
    ensures IsWord(f, w)
  {
    hide IsWord;
    hide Delivers;
    SpecialWords(f);
    hide Format.QNaN;
    if Finite(f, a) && Finite(f, b) {
      hide Signed;
      var v := Signed(f, a) + Signed(f, b);
      var sign := if v == 0.0 then ZeroSign(rm, SignOf(f, a), SignOf(f, b)) else v < 0.0;
      DeliveredWord(f, rm, sign, Num(Abs(v)), flags, w);
    }
  }

  lemma ProductWord(f: Format, rm: Mode, a: nat, b: nat, flags: set<Flag>, w: nat)
    requires f.Valid() && ProductIs(f, rm, a, b, {}, flags, w)
    ensures IsWord(f, w)
  {
    hide IsWord;
    hide Delivers;
    hide Product;
    SpecialWords(f);
    hide Format.QNaN;
    if Delivers(f, rm, SignOf(f, a) != SignOf(f, b), Num(Product(f, a, b)), {}, flags, w) {
      DeliveredWord(f, rm, SignOf(f, a) != SignOf(f, b), Num(Product(f, a, b)), flags, w);
    }
  }

  lemma QuotientWord(f: Format, rm: Mode, a: nat, b: nat, flags: set<Flag>, w: nat)
    requires f.Valid() && QuotientIs(f, rm, a, b, {}, flags, w)
    ensures IsWord(f, w)
  {
    hide IsWord;
    hide Delivers;
    SpecialWords(f);
    hide Format.QNaN;
    hide Quotient;
    var sign := SignOf(f, a) != SignOf(f, b);
    if !NaN(f, a) && !NaN(f, b) && !Infinite(f, a) && !Infinite(f, b) && Magnitude(f, b) != 0 {
      DeliveredWord(f, rm, sign, Num(Quotient(f, a, b)), flags, w);
    }
  }

  lemma RootWord(f: Format, rm: Mode, a: nat, flags: set<Flag>, w: nat)
    requires f.Valid() && IsWord(f, a) && RootIs(f, rm, a, {}, flags, w)
    ensures IsWord(f, w)
  {
    hide IsWord;
    hide Delivers;
    hide Value;
    SpecialWords(f);
    hide Format.QNaN;
    if Delivers(f, rm, false, Sqrt(Value(f, a)), {}, flags, w) {
      DeliveredWord(f, rm, false, Sqrt(Value(f, a)), flags, w);
    }
  }

  lemma FusedWord(f: Format, rm: Mode, a: nat, b: nat, c: nat, flags: set<Flag>, w: nat)
    requires f.Valid() && FusedIs(f, rm, a, b, c, {}, flags, w)
    ensures IsWord(f, w)
  {
    hide IsWord;
    hide Delivers;
    SpecialWords(f);
    hide Format.QNaN;
    hide Signed;
    hide SignedProduct;
    if Finite(f, a) && Finite(f, b) && Finite(f, c) {
      var v := SignedProduct(f, a, b) + Signed(f, c);
      var sign := if v == 0.0 then ZeroSign(rm, SignOf(f, a) != SignOf(f, b), SignOf(f, c)) else v < 0.0;
      DeliveredWord(f, rm, sign, Num(Abs(v)), flags, w);
    }
  }

  lemma ConvertedWord(a: nat, b: nat, rm: Mode, flags: set<Flag>, w: nat)
    requires SF32.Valid() && SF64.Valid()
    ensures WidenIs(SF32, SF64, a, {}, flags, w) ==> IsWord(SF64, w)
    ensures NarrowIs(SF64, SF32, rm, b, {}, flags, w) ==> IsWord(SF32, w)
  {
    hide Pow2;
    hide IsWord;
    hide Delivers;
    hide Value;
    SpecialWords(SF32);
    SpecialWords(SF64);
    hide Format.QNaN;
    var sign, x := SignOf(SF64, b), Num(Value(SF64, b));
    if Delivers(SF32, rm, sign, x, {}, flags, w) {
      DeliveredWord(SF32, rm, sign, x, flags, w);
    }
    hide Format.Valid;
    hide Magnitude;
    hide Format.Inf;
  }

  /** Every floating-point result is a word of its format. */
  lemma ResultWord(op: C.FloatOp, a: bv64, b: bv64, c: bv64, flags: set<Flag>, w: nat)
    requires Rounding(op) && !op.fn.ToInt? && Delivers3(op, a, b, c, flags, w)
    ensures IsWord(FormatOf(op.dbl), w)
  {
    Formats();
    var f, rm := FormatOf(op.dbl), ModeOf(op.rm);
    hide Format.Valid;
    hide Pow2;
    hide IsWord;
    hide WordOf;
    hide ModeOf;
    hide SumIs;
    hide ProductIs;
    hide QuotientIs;
    hide RootIs;
    hide FusedIs;
    hide WidenIs;
    hide NarrowIs;
    hide Delivers;
    hide FlipSign;
    var x, y, z := WordOf(f, a), WordOf(f, b), WordOf(f, c);
    match op.fn
    case Add => SumWord(f, rm, x, y, flags, w);
    case Sub =>
      FlipSignIs(f, y);
      SumWord(f, rm, x, FlipSign(f, y), flags, w);
    case Mul => ProductWord(f, rm, x, y, flags, w);
    case Div => QuotientWord(f, rm, x, y, flags, w);
    case Sqrt => RootWord(f, rm, x, flags, w);
    case Fma(p, q) => FusedWord(f, rm, Flipped(f, p, x), y, Flipped(f, q, z), flags, w);
    case Convert => ConvertedWord(WordOf(SF32, a), WordOf(SF64, a), rm, flags, w);
    case FromInt(kind) =>
      var n := IntSize(kind);
      var v := IntValue(n, IntUnsigned(kind), W.NumLow(a, n));
      DeliveredWord(f, rm, v < 0, Num(AbsInt(v) as real), flags, w);
  }

  lemma SpecialWords(f: Format)
    requires f.Valid()
    ensures IsWord(f, f.QNaN()) && IsWord(f, 0)
    ensures forall sign: bool :: IsWord(f, Encode(f, sign, f.Inf())) && IsWord(f, Encode(f, sign, 0))
  {
    EncodedWord(f, false, f.QNaN());
    EncodedWord(f, false, 0);
    forall sign: bool
      ensures IsWord(f, Encode(f, sign, f.Inf())) && IsWord(f, Encode(f, sign, 0))
    {
      EncodedWord(f, sign, f.Inf());
      EncodedWord(f, sign, 0);
    }
  }

  // ---------- the instructions ----------

  /** The registers an operation takes. */
  function Operands(s: C.State, op: C.FloatOp, i: bv32): (bv64, bv64, bv64) {
    if op.fn.FromInt? then (s.x(R.Rs1(i)), 0, 0) else (s.fp(R.Rs1(i)), s.fp(R.Rs2(i)), s.fp(i >> 27))
  }

  /** The library answers this one call with `out`. */
  function EnvOf(op: C.FloatOp, abc: (bv64, bv64, bv64), out: C.FpOut): C.Env {
    C.Env(C.Done(0), C.Done(0), (o, a, b, c) => if o == op && (a, b, c) == abc then out else C.FpOut(0, 0))
  }

  /** A floating-point instruction with the soft-float library behind it. Its destination holds the
      word the library delivers for the words of its source registers, and its flags are accrued. */
  method FloatInst(core: C.Interpreter, i: bv32, inst: bv32) returns (o: C.Outcome, ghost flags: set<Flag>, w: nat)
    requires var choice := C.FloatOf(core.View().unit.frm, i); choice.ToFp? || choice.ToX? ==> Rounding(choice.op)
    modifies core
    ensures var s, t := old(core.View()), core.View();
      match C.FloatOf(s.unit.frm, i)
      case Refused => o == C.Exception(2) && t == s.(tval := inst as bv64)
      case ToFp(op, dirty) =>
        var (a, b, c) := Operands(s, op, i);
        && o == C.Completed(D.None) && Delivers3(op, a, b, c, flags, w)
        && t == s.(fp := t.fp, unit := t.unit, pc := R.Plus(s.pc, 4))
        && WordOf(FormatOf(op.dbl), t.fp(R.Rd(i))) == w
        && (forall r :: r != R.Rd(i) ==> t.fp(r) == s.fp(r))
        && t.unit == C.Accrued(s.unit, FlagBits(flags)).(fs := if dirty then 3 else s.unit.fs)
      case ToX(op) =>
        var (a, b, c) := Operands(s, op, i);
        && o == C.Completed(D.None) && Delivers3(op, a, b, c, flags, w)
        && t == s.(x := C.PutX(s.x, R.Rd(i), ValueOf(op, w)), unit := C.Accrued(s.unit, FlagBits(flags)), pc := R.Plus(s.pc, 4))
  {
    hide C.Interpreter.View;
    hide C.FloatOf;
    hide Rounding;
    hide Delivers3;
    hide ValueOf;
    hide WordOf;
    hide C.FloatPerform;
    hide C.Matches;
    hide R.Plus;
    hide C.Accrued;
    ghost var s := core.View();
    var choice := C.FloatOf(core.View().unit.frm, i);
    if choice.Refused? {
      flags, w := {}, 0;
      var env := C.Env(C.Done(0), C.Done(0), (op, a, b, c) => C.FpOut(0, 0));
      o := core.FloatStep(i, inst, env);
      Refusal(s, i, inst, env, core.View(), o);
    } else {
      var op := choice.op;
      var (a, b, c) := Operands(core.View(), op, i);
      var out;
      out, flags, w := Compute(op, a, b, c);
      o := core.FloatStep(i, inst, EnvOf(op, (a, b, c), out));
      Completion(s, i, inst, out, flags, w, core.View(), o);
    }
  }

  lemma Refusal(s: C.State, i: bv32, inst: bv32, env: C.Env, t: C.State, o: C.Outcome)
    requires C.FloatOf(s.unit.frm, i).Refused?
    requires C.Matches(s, C.FloatPerform(s, i, inst, R.Plus(s.pc, 4), env), t, o)
    ensures o == C.Exception(2) && t == s.(tval := inst as bv64)
  {
    hide C.FloatOf;
    hide R.Plus;
  }

  lemma Completion(s: C.State, i: bv32, inst: bv32, out: C.FpOut, flags: set<Flag>, w: nat, t: C.State, o: C.Outcome)
    requires var choice := C.FloatOf(s.unit.frm, i); !choice.Refused? && Rounding(choice.op)
    requires var op := C.FloatOf(s.unit.frm, i).op; var (a, b, c) := Operands(s, op, i);
      Delivers3(op, a, b, c, flags, w) && out == C.FpOut(ValueOf(op, w), FlagBits(flags))
    requires var op := C.FloatOf(s.unit.frm, i).op;
      C.Matches(s, C.FloatPerform(s, i, inst, R.Plus(s.pc, 4), EnvOf(op, Operands(s, op, i), out)), t, o)
    ensures match C.FloatOf(s.unit.frm, i)
      case ToFp(op, dirty) =>
        && o == C.Completed(D.None)
        && t == s.(fp := t.fp, unit := t.unit, pc := R.Plus(s.pc, 4))
        && WordOf(FormatOf(op.dbl), t.fp(R.Rd(i))) == w
        && (forall r :: r != R.Rd(i) ==> t.fp(r) == s.fp(r))
        && t.unit == C.Accrued(s.unit, FlagBits(flags)).(fs := if dirty then 3 else s.unit.fs)
      case ToX(op) =>
        && o == C.Completed(D.None)
        && t == s.(x := C.PutX(s.x, R.Rd(i), ValueOf(op, w)), unit := C.Accrued(s.unit, FlagBits(flags)), pc := R.Plus(s.pc, 4))
      case Refused => true
  {
    var choice := C.FloatOf(s.unit.frm, i);
    var op := choice.op;
    var (a, b, c) := Operands(s, op, i);
    hide C.FloatOf;
    ComputedIs(s, op, i, out);
    Landed(s, i, inst, EnvOf(op, (a, b, c), out), out, t, o);
    ToFpOps(s.unit.frm, i);
    if choice.ToFp? {
      ResultWord(op, a, b, c, flags, w);
      ReadBack(op.dbl, w);
      RoundedResult(op, w);
    }
    hide *;
  }

  lemma RoundedResult(op: C.FloatOp, w: nat)
    requires Rounding(op) && !op.fn.ToInt?
    ensures C.FpResult(op, ValueOf(op, w)) == if op.dbl then W.Reg(w) else C.Box(W.Reg(w))
  {
    hide W.Reg;
    hide C.Box;
    hide R.Word;
  }

  lemma ComputedIs(s: C.State, op: C.FloatOp, i: bv32, out: C.FpOut)
    requires Rounding(op)
    ensures C.Computed(s, op, i, EnvOf(op, Operands(s, op, i), out)) == out
  {
    hide R.Rs1;
    hide R.Rs2;
    hide R.Word;
    hide C.SignValue;
  }

  /** What a completed instruction leaves, for the result `out`. */
  lemma Landed(s: C.State, i: bv32, inst: bv32, env: C.Env, out: C.FpOut, t: C.State, o: C.Outcome)
    requires var choice := C.FloatOf(s.unit.frm, i); !choice.Refused? && C.Computed(s, choice.op, i, env) == out
    requires C.Matches(s, C.FloatPerform(s, i, inst, R.Plus(s.pc, 4), env), t, o)
    ensures o == C.Completed(D.None)
    ensures match C.FloatOf(s.unit.frm, i)
      case ToFp(op, dirty) =>
        && t == s.(fp := t.fp, unit := t.unit, pc := R.Plus(s.pc, 4))
        && t.fp(R.Rd(i)) == C.FpResult(op, out.value)
        && (forall r :: r != R.Rd(i) ==> t.fp(r) == s.fp(r))
        && t.unit == C.Accrued(s.unit, out.raised).(fs := if dirty then 3 else s.unit.fs)
      case ToX(op) =>
        t == s.(x := C.PutX(s.x, R.Rd(i), out.value), unit := C.Accrued(s.unit, out.raised), pc := R.Plus(s.pc, 4))
      case Refused => true
  {
    C.AccruedKeepsFs(s.unit, out.raised);
    hide C.FloatOf;
    hide C.Computed;
    hide C.FpResult;
    hide C.Accrued;
    hide R.Plus;
    hide R.Rd;
  }

  /** Which operations have a floating-point result. */
  lemma ToFpOps(frm: nat, i: bv32)
    ensures var c := C.FloatOf(frm, i);
      (c.ToFp? ==> !c.op.fn.ToInt?) && (c.ToX? && Rounding(c.op) ==> c.op.fn.ToInt?)
  {
    C.IntegerResults(frm, i);
    hide R.Opcode;
    hide R.Funct3;
    hide R.Funct7;
    hide R.Rs2;
    hide C.InstRm;
  }
}
