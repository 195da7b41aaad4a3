/** What the tested widths guarantee: lossless widths lose nothing, and an expression without
    the operators that disable pruning can be evaluated at any smaller width for its low bits. */
module WidthSound {
  import opened FourState
  import opened TwosComplement
  import opened Verinum
  import opened NetExpr
  import opened WidthTest
  import OperatorMeaning

  /** A literal at width w: cut, or padded with its top bit when it is a single-bit literal, or
      signed, or has no length and an unknown top bit, and with 0 otherwise. A literal without a
      length keeps its own sign. */
  function LiteralVec(bits: Vec, hasLen: bool, isSingle: bool, sign: bool, s: bool, w: nat): (v: Vec)
    ensures |v| == w
  {
    var signed := if hasLen then s else sign;
    var unknown := !hasLen && |bits| > 0 && !Known(bits[|bits| - 1]);
    ExtendVec(bits, isSingle || signed || unknown, w)
  }

  /** The value of an elaborated expression at width w under the propagated sign s. */
  function EvalAt(e: PExpr, env: Env, s: bool, w: nat, cfg: Config): Vec
    decreases e, 2
  {
    match e
    case Number(bits, hasLen, single, sign) => LiteralVec(bits, hasLen, single, sign, s, w)
    case Ident(id, _, _, _) => ExtendVec(env(id), s, w)
    case Binary(op, l, r) =>
      var a, b := EvalAt(l, env, s, w, cfg), EvalAt(r, env, s, w, cfg);
      (match op
       case PAdd => AddVec(OpPlus, a, b, w)
       case PSub => AddVec(OpMinus, a, b, w)
       case PMul => MultVec(a, b, w)
       case PDiv => DivVec(false, a, b, s, w)
       case PMod => DivVec(true, a, b, s, w)
       case PBits(o) => BitsVec(o, a, b, w))
    case Cond(c, t, f) =>
      (match Logical(SelfDetermined(c, env, cfg))
       case V1 => EvalAt(t, env, s, w, cfg)
       case V0 => EvalAt(f, env, s, w, cfg)
       case _ => Blend(EvalAt(t, env, s, w, cfg), EvalAt(f, env, s, w, cfg)))
    case Un(PContext(u), x) => UnaryVec(u, EvalAt(x, env, s, w, cfg), s)
    case Un(PReduce(o), x) => ExtendVec([ReduceBit(o, SelfDetermined(x, env, cfg))], false, w)
    case Compare(_, _, _) => ExtendVec([CompareAt(e, env, cfg)], false, w)
    case LeftShift(op, l, r, _) => ShiftBy(op, EvalAt(l, env, s, w, cfg), SelfDetermined(r, env, cfg), s, w)
  }

  function SelfDetermined(e: PExpr, env: Env, cfg: Config): Vec
    decreases e, 3
  {
    EvalAt(e, env, SignOf(e), Test(e, SIZED, cfg).width, cfg)
  }

  /** Operands of a comparison are evaluated at their tested widths, signed only if both are. */
  function CompareAt(e: PExpr, env: Env, cfg: Config): Bit
    requires e.Compare?
    decreases e, 1
  {
    var (lw, rw, _) := TestCompare(e.l, e.r, cfg);
    var s := SignOf(e.l) && SignOf(e.r);
    CompBit(e.cmp, EvalAt(e.l, env, s, lw, cfg), EvalAt(e.r, env, s, rw, cfg), s)
  }

  // ----- lossless -----

  /** Trees of + - * and ?: over leaves of one sign; unsigned trees without subtraction. A
      single-bit literal 1 without a sign is no integer: it fills whatever width it gets. */
  ghost predicate LosslessTree(e: PExpr, env: Env, s: bool, cfg: Config) {
    match e
    case Number(bits, _, single, sign) => sign == s && |bits| > 0 && Defined(bits)
        && (single && bits[|bits| - 1] == V1 ==> s)
    case Ident(id, w, sign, _) => sign == s && |env(id)| == w > 0 && Defined(env(id))
    case Binary(op, l, r) =>
      && (op == PAdd || op == PMul || (op == PSub && s))
      && LosslessTree(l, env, s, cfg) && LosslessTree(r, env, s, cfg)
    case Cond(c, t, f) =>
      && Logical(SelfDetermined(c, env, cfg)) != VX
      && LosslessTree(t, env, s, cfg) && LosslessTree(f, env, s, cfg)
    case Un(PContext(u), x) => u == Pos && LosslessTree(x, env, s, cfg)
    case _ => false
  }

  /** Ordinary integer arithmetic on the leaves. */
  function Exact(e: PExpr, env: Env, s: bool, cfg: Config): int {
    match e
    case Number(bits, _, _, _) => Num(bits, s)
    case Ident(id, _, _, _) => Num(env(id), s)
    case Binary(op, l, r) =>
      var a, b := Exact(l, env, s, cfg), Exact(r, env, s, cfg);
      if op == PAdd then a + b else if op == PSub then a - b else a * b
    case Cond(c, t, f) =>
      if Logical(SelfDetermined(c, env, cfg)) == V1 then Exact(t, env, s, cfg) else Exact(f, env, s, cfg)
    case Un(_, x) => Exact(x, env, s, cfg)
    case _ => 0
  }

  lemma FitsWider(n: int, w: nat, v: nat, s: bool)
    requires Fits(n, w, s) && w <= v
    ensures Fits(n, v, s)
  {
    Pow2Monotone(w, v);
    if w > 0 {
      Pow2Monotone(w - 1, v - 1);
    }
  }

  lemma LeafFits(v: Vec, s: bool)
    requires |v| > 0
    ensures Fits(Num(v, s), |v|, s)
  {
    IntRange(Num4(v, true, s));
  }

  lemma ProductFits(a: int, b: int, lw: nat, rw: nat, s: bool)
    requires Fits(a, lw, s) && Fits(b, rw, s)
    ensures Fits(a * b, lw + rw, s)
  {
    if s {
      ProductBound(a, b, Pow2(lw - 1), Pow2(rw - 1));
      Pow2Add(lw - 1, rw - 1);
      assert Pow2(lw + rw - 1) == 2 * Pow2(lw - 1 + (rw - 1));
    } else {
      MulMono2(a, Pow2(lw) - 1, b, Pow2(rw) - 1);
      Pow2Add(lw, rw);
      BelowProduct(Pow2(lw), Pow2(rw));
    }
  }

  /** One bit more holds a sum or a difference; a difference of numbers without sign is not lossless. */
  lemma SumFits(a: int, b: int, lw: nat, rw: nat, s: bool)
    requires Fits(a, lw, s) && Fits(b, rw, s)
    ensures Fits(a + b, Max(lw, rw) + 1, s) && (s ==> Fits(a - b, Max(lw, rw) + 1, s))
  {
    var n := Max(lw, rw);
    FitsWider(a, lw, n, s);
    FitsWider(b, rw, n, s);
    assert Pow2(n + 1) == 2 * Pow2(n) && Pow2(n) == 2 * Pow2(n - 1);
  }

  /** No lossless tree overflows its lossless width. */
  lemma {:induction false} ExactFits(e: PExpr, env: Env, s: bool, cfg: Config)
    requires LosslessTree(e, env, s, cfg)
    ensures Fits(Exact(e, env, s, cfg), LosslessWidth(e, cfg), s)
  {
    hide Fits, Pow2, EvalAt, Test, SignOf, Logical;
    match e
    case Number(bits, _, _, _) => LeafFits(bits, s);
    case Ident(id, _, _, _) => LeafFits(env(id), s);
    case Binary(op, l, r) =>
      ExactFits(l, env, s, cfg);
      ExactFits(r, env, s, cfg);
      var a, b := Exact(l, env, s, cfg), Exact(r, env, s, cfg);
      var lw, rw := LosslessWidth(l, cfg), LosslessWidth(r, cfg);
      if op == PMul {
        ProductFits(a, b, lw, rw, s);
      } else {
        SumFits(a, b, lw, rw, s);
      }
    case Cond(c, t, f) =>
      ExactFits(t, env, s, cfg);
      ExactFits(f, env, s, cfg);
      var lt, lf := LosslessWidth(t, cfg), LosslessWidth(f, cfg);
      FitsWider(Exact(e, env, s, cfg), if Logical(SelfDetermined(c, env, cfg)) == V1 then lt else lf, Max(lt, lf), s);
    case Un(_, x) => ExactFits(x, env, s, cfg);
  }

  lemma ExtendEncodes(v: Vec, s: bool, w: nat)
    requires Defined(v)
    ensures ExtendVec(v, s, w) == Encode(Num(v, s), w)
  {
    var pad := SignPad(v, s);
    LowCongruent(v, pad, w);
    EncodeOfValue(Low(v, pad, w), V0);
    assert ExtendVec(v, s, w) == Low(v, pad, w);
  }

  lemma EncodedOperands(a: int, b: int, w: nat)
    ensures AddVec(OpPlus, Encode(a, w), Encode(b, w), w) == Encode(a + b, w)
    ensures AddVec(OpMinus, Encode(a, w), Encode(b, w), w) == Encode(a - b, w)
    ensures MultVec(Encode(a, w), Encode(b, w), w) == Encode(a * b, w)
  {
    EncodeOfValue(Encode(a, w), V0);
    EncodeOfValue(Encode(b, w), V0);
    EncodeRing(Value(Encode(a, w), V0), a, Value(Encode(b, w), V0), b, w);
  }

  /** Evaluating every operator modulo 2^w gives the exact result modulo 2^w. */
  lemma {:induction false} EvalAtEncodes(e: PExpr, env: Env, s: bool, w: nat, cfg: Config)
    requires LosslessTree(e, env, s, cfg)
    ensures EvalAt(e, env, s, w, cfg) == Encode(Exact(e, env, s, cfg), w)
  {
    hide Encode, Value;
    match e
    case Number(bits, _, single, _) =>
      ExtendEncodes(bits, s, w);
      assert single && !s ==> bits[|bits| - 1] == V0;
    case Ident(id, _, _, _) => ExtendEncodes(env(id), s, w);
    case Binary(op, l, r) =>
      EvalAtEncodes(l, env, s, w, cfg);
      EvalAtEncodes(r, env, s, w, cfg);
      EncodedOperands(Exact(l, env, s, cfg), Exact(r, env, s, cfg), w);
    case Cond(c, t, f) =>
      EvalAtEncodes(t, env, s, w, cfg);
      EvalAtEncodes(f, env, s, w, cfg);
      assert Logical(SelfDetermined(c, env, cfg)) != VZ;
    case Un(_, x) => EvalAtEncodes(x, env, s, w, cfg);
  }

  /** At the lossless width, or any wider, the value is the exact integer. */
  lemma LosslessIsExact(e: PExpr, env: Env, s: bool, w: nat, cfg: Config)
    requires LosslessTree(e, env, s, cfg) && w >= LosslessWidth(e, cfg)
    ensures Num(EvalAt(e, env, s, w, cfg), s) == Exact(e, env, s, cfg)
  {
    ExactFits(e, env, s, cfg);
    EvalAtEncodes(e, env, s, w, cfg);
    FitsWider(Exact(e, env, s, cfg), LosslessWidth(e, cfg), w, s);
    ExactWhenInRange(Exact(e, env, s, cfg), w, s);
  }

  lemma {:induction false} LosslessTreeSign(e: PExpr, env: Env, s: bool, cfg: Config)
    requires LosslessTree(e, env, s, cfg)
    ensures SignOf(e) == s
  {
    match e
    case Binary(_, l, r) =>
      LosslessTreeSign(l, env, s, cfg);
      LosslessTreeSign(r, env, s, cfg);
    case Cond(_, t, f) =>
      LosslessTreeSign(t, env, s, cfg);
      LosslessTreeSign(f, env, s, cfg);
    case Un(_, x) => LosslessTreeSign(x, env, s, cfg);
    case _ =>
  }

  /** What a comparison says about two integers. */
  function IntComp(c: CompOp, a: int, b: int): Bit {
    match c
    case Lt => if a < b then V1 else V0
    case Le => if a <= b then V1 else V0
    case Gt => if a > b then V1 else V0
    case Ge => if a >= b then V1 else V0
    case Eq => if a == b then V1 else V0
    case CaseEq => if a == b then V1 else V0
    case Ne => if a == b then V0 else V1
    case CaseNe => if a == b then V0 else V1
  }

  /** On defined vectors of one width the two equalities are the equality of the bits. */
  lemma DefinedEquality(l: Vec, r: Vec)
    requires |l| == |r| && Defined(l) && Defined(r)
    ensures EqBit(l, r) == FromBool(l == r)
  {
    if l != r {
      var i :| 0 <= i < |l| && l[i] != r[i];
      assert Mismatch(l, r);
    }
  }

  lemma CodesCompare(c: CompOp, a: int, b: int, w: nat, s: bool)
    requires Fits(a, w, s) && Fits(b, w, s)
    ensures CompBit(c, Encode(a, w), Encode(b, w), s) == IntComp(c, a, b)
  {
    hide Encode, Value;
    ExactWhenInRange(a, w, s);
    ExactWhenInRange(b, w, s);
    DefinedEquality(Encode(a, w), Encode(b, w));
  }

  /** At widths that hold both operands a comparison is of the exact integers, whichever of the eight. */
  lemma CompareIsExact(c: CompOp, l: PExpr, r: PExpr, env: Env, s: bool, cfg: Config)
    requires LosslessTree(l, env, s, cfg) && LosslessTree(r, env, s, cfg)
    requires var (lw, rw, _) := TestCompare(l, r, cfg);
             lw == rw && lw >= LosslessWidth(l, cfg) && lw >= LosslessWidth(r, cfg)
    ensures CompareAt(Compare(c, l, r), env, cfg) == IntComp(c, Exact(l, env, s, cfg), Exact(r, env, s, cfg))
  {
    var (lw, rw, m) := TestCompare(l, r, cfg);
    LosslessTreeSign(l, env, s, cfg);
    LosslessTreeSign(r, env, s, cfg);
    ExactFits(l, env, s, cfg);
    ExactFits(r, env, s, cfg);
    FitsWider(Exact(l, env, s, cfg), LosslessWidth(l, cfg), lw, s);
    FitsWider(Exact(r, env, s, cfg), LosslessWidth(r, cfg), rw, s);
    EvalAtEncodes(l, env, s, lw, cfg);
    EvalAtEncodes(r, env, s, rw, cfg);
    CodesCompare(c, Exact(l, env, s, cfg), Exact(r, env, s, cfg), lw, s);
  }

  /** A comparison whose mode ends lossless compares exact integers. */
  lemma LosslessCompareIsExact(c: CompOp, l: PExpr, r: PExpr, env: Env, s: bool, cfg: Config)
    requires !cfg.strict
    requires LosslessTree(l, env, s, cfg) && LosslessTree(r, env, s, cfg)
    requires Wide(TestCompare(l, r, cfg).2)
    ensures CompareAt(Compare(c, l, r), env, cfg) == IntComp(c, Exact(l, env, s, cfg), Exact(r, env, s, cfg))
  {
    TestCompareMeans(l, r, cfg);
    CompareIsExact(c, l, r, env, s, cfg);
  }

  /** A signal, a variable, or a literal. */
  predicate SimpleOperand(e: PExpr) {
    e.Number? || e.Ident?
  }

  lemma SimpleWidths(l: PExpr, r: PExpr, cfg: Config)
    requires SimpleOperand(l) && SimpleOperand(r) && !cfg.strict
    ensures TestCompare(l, r, cfg).0 >= LosslessWidth(l, cfg) && TestCompare(l, r, cfg).0 >= LosslessWidth(r, cfg)
  {
  }

  /** A comparison of two simple operands of one sign compares their integers, whatever their widths. */
  lemma SimpleCompareIsExact(c: CompOp, l: PExpr, r: PExpr, env: Env, s: bool, cfg: Config)
    requires SimpleOperand(l) && SimpleOperand(r) && !cfg.strict
    requires LosslessTree(l, env, s, cfg) && LosslessTree(r, env, s, cfg)
    ensures CompareAt(Compare(c, l, r), env, cfg) == IntComp(c, Exact(l, env, s, cfg), Exact(r, env, s, cfg))
  {
    TestCompareMeans(l, r, cfg);
    SimpleWidths(l, r, cfg);
    CompareIsExact(c, l, r, env, s, cfg);
  }

  /** The width field of a node, which fix_width_ may have raised above the returned width, is
      wide enough too once the mode is wide. */
  lemma FieldWidthIsExact(e: PExpr, env: Env, s: bool, mode: Mode, cfg: Config)
    requires !cfg.strict && LosslessTree(e, env, s, cfg) && Wide(Test(e, mode, cfg).mode)
    ensures Num(EvalAt(e, env, s, Test(e, mode, cfg).width, cfg), s) == Exact(e, env, s, cfg)
  {
    TestMeans(e, mode, cfg);
    FieldWidth(e, mode, cfg);
    LosslessIsExact(e, env, s, Test(e, mode, cfg).width, cfg);
  }

  // ----- single-bit literals -----

  lemma Pow2Grows(a: nat, b: nat)
    requires a <= b
    ensures Pow2(a) == Pow2(b) <==> a == b
  {
    if a < b {
      Pow2Monotone(a, b - 1);
      assert Pow2(b) == 2 * Pow2(b - 1);
    }
  }

  /** A literal is read as its own integer at a width that holds it, exactly unless it is a
      single-bit literal 1 in an unsigned place and the width is not its own. */
  lemma LiteralExactness(bits: Vec, hasLen: bool, isSingle: bool, s: bool, w: nat)
    requires 0 < |bits| <= w && Defined(bits)
    ensures Num(LiteralVec(bits, hasLen, isSingle, s, s, w), s) == Num(bits, s)
            <==> !(isSingle && !s && bits[|bits| - 1] == V1) || w == |bits|
  {
    var n := |bits|;
    var v := LiteralVec(bits, hasLen, isSingle, s, s, w);
    var pad := if isSingle || s then bits[n - 1] else V0;
    assert v == bits + Fill(pad, w - n);
    ValueExtend(bits, pad, w - n);
    if isSingle && !s && pad == V1 {
      ValuePadded(bits, V1);
      ValuePadded(v, V1);
      Pow2Grows(n, w);
    }
  }

  /** The single-bit literal 1. */
  function SingleOne(): PExpr {
    Number([V1], false, true, false)
  }

  lemma SingleOneFills(env: Env, w: nat, cfg: Config)
    ensures EvalAt(SingleOne(), env, false, w, cfg) == Fill(V1, w)
  {
  }

  /** '1 < r for an unsigned literal r without length that is as wide as an integer: the mode ends
      wide, and yet the answer is that of the integers 1 and r exactly when r is at most 1. */
  lemma SingleBitCompare(bits: Vec, env: Env, cfg: Config)
    requires !cfg.strict && |bits| >= cfg.integerWidth && |bits| > 0 && Defined(bits)
    ensures var r := Number(bits, false, false, false);
            && Wide(TestCompare(SingleOne(), r, cfg).2)
            && (CompareAt(Compare(Lt, SingleOne(), r), env, cfg) == IntComp(Lt, 1, Num(bits, false))
               <==> Num(bits, false) <= 1)
  {
    var r := Number(bits, false, false, false);
    var n := |bits|;
    assert TestCompare(SingleOne(), r, cfg) == (n, n, LOSSLESS);
    SingleOneFills(env, n, cfg);
    AllOnesValue(n);
    ValueRange(bits);
    assert EvalAt(r, env, false, n, cfg) == bits;
  }

  lemma BitThirtyTwo()
    ensures var bits := Fill(V0, 32) + [V1, V0, V0, V0]; Num(bits, false) > 1 && Defined(bits) && |bits| == 36
  {
    var bits := Fill(V0, 32) + [V1, V0, V0, V0];
    ValueSplit(bits, 32, V0);
    ZeroValue(bits[..32]);
    assert bits[32..][1..] == [V0, V0, V0];
    ZeroValue([V0, V0, V0]);
    Pow2Monotone(1, 32);
  }

  /** '1 < 'h1_0000_0000: 1 as integers, and 0 as 2^36 - 1 is compared with 2^32. */
  lemma SingleBitIsNotOne(env: Env, cfg: Config)
    requires !cfg.strict && cfg.integerWidth == 32
    ensures var r := Number(Fill(V0, 32) + [V1, V0, V0, V0], false, false, false);
            && CompareAt(Compare(Lt, SingleOne(), r), env, cfg) == V0
            && IntComp(Lt, 1, Num(r.bits, false)) == V1
  {
    var bits := Fill(V0, 32) + [V1, V0, V0, V0];
    hide Value, Fill, Defined, Test, TestCompare, EvalAt;
    BitThirtyTwo();
    SingleBitCompare(bits, env, cfg);
  }

  lemma {:induction false} LosslessIsShiftFree(e: PExpr, env: Env, s: bool, cfg: Config)
    requires LosslessTree(e, env, s, cfg)
    ensures ShiftFree(e)
  {
    match e
    case Binary(_, l, r) =>
      LosslessIsShiftFree(l, env, s, cfg);
      LosslessIsShiftFree(r, env, s, cfg);
    case Cond(_, t, f) =>
      LosslessIsShiftFree(t, env, s, cfg);
      LosslessIsShiftFree(f, env, s, cfg);
    case Un(_, x) => LosslessIsShiftFree(x, env, s, cfg);
    case _ =>
  }

  /** An expression tested in EXPAND, as an index or a bound is, is evaluated exactly. */
  lemma ExpandIsExact(e: PExpr, env: Env, s: bool, cfg: Config)
    requires !cfg.strict && LosslessTree(e, env, s, cfg)
    ensures Num(EvalAt(e, env, s, Test(e, EXPAND, cfg).width, cfg), s) == Exact(e, env, s, cfg)
  {
    hide EvalAt, Exact, LosslessTree, Test;
    TestMeans(e, EXPAND, cfg);
    FieldWidth(e, EXPAND, cfg);
    if !Wide(Test(e, EXPAND, cfg).mode) {
      LosslessIsShiftFree(e, env, s, cfg);
      ExpandMeans(e, cfg);
      ExpandedIsEnough(e, cfg);
    }
    LosslessIsExact(e, env, s, Test(e, EXPAND, cfg).width, cfg);
  }

  lemma MulOrder(a: int, b: int, p: int)
    requires a <= b && p > 0
    ensures a * p <= b * p
  {
    MulMonotone(p, a, b);
    MulCommutes(p, a);
    MulCommutes(p, b);
  }

  lemma ScaledBounds(a: int, lo: int, hi: int, p: int)
    requires lo <= a < hi && p > 0
    ensures lo * p <= a * p < hi * p
  {
    MulOrder(lo, a, p);
    MulOrder(a, hi - 1, p);
    MulDistrib(p, hi, -1);
    MulCommutes(p, hi - 1);
    MulCommutes(p, hi);
    MulCommutes(p, -1);
  }

  lemma ShiftedFits(a: int, w: nat, n: nat, s: bool)
    requires Fits(a, w, s)
    ensures Fits(a * Pow2(n), w + n, s)
  {
    hide Pow2;
    if s {
      Pow2Add(w - 1, n);
      MulSigns(Pow2(w - 1), Pow2(n));
      ScaledBounds(a, 0 - Pow2(w - 1), Pow2(w - 1), Pow2(n));
    } else {
      Pow2Add(w, n);
      ScaledBounds(a, 0, Pow2(w), Pow2(n));
    }
  }

  lemma ShiftEncodes(a: int, n: nat, s: bool, w: nat)
    ensures ShiftVec(ShLeft, Encode(a, w), n, s, w) == Encode(a * Pow2(n), w)
  {
    hide Encode, Value, ShiftVec, Pow2;
    var v := Encode(a, w);
    var r := ShiftVec(ShLeft, v, n, s, w);
    OperatorMeaning.ShiftedUp(v, n, s, w);
    OperatorMeaning.ShiftDefined(v, n, s, w);
    ValueOfEncode(Value(v, V0) * Pow2(n), w);
    EncodeOfValue(r, V0);
    EncodeOfValue(Encode(Value(v, V0) * Pow2(n), w), V0);
    EncodeOfValue(v, V0);
    EncodeProduct(Value(v, V0), a, Pow2(n), w);
    MulCommutes(Pow2(n), a);
    MulCommutes(Pow2(n), Value(v, V0));
  }

  lemma ShiftedAt(l: PExpr, r: PExpr, n: nat, env: Env, s: bool, w: nat, cfg: Config)
    requires Defined(SelfDetermined(r, env, cfg)) && Value(SelfDetermined(r, env, cfg), V0) == n
    ensures EvalAt(LeftShift(ShLeft, l, r, Some(n)), env, s, w, cfg)
            == ShiftVec(ShLeft, EvalAt(l, env, s, w, cfg), n, s, w)
  {
    hide SelfDetermined, ShiftVec, Value;
  }

  /** A left shift, by a known amount, of an operand that is lossless by itself loses nothing. */
  lemma KnownShiftIsExact(l: PExpr, r: PExpr, n: nat, env: Env, s: bool, mode: Mode, cfg: Config)
    requires !cfg.strict && LosslessTree(l, env, s, cfg) && Wide(Test(l, SIZED, cfg).mode)
    requires Rank(if mode == SIZED then Test(l, SIZED, cfg).mode else mode) >= Rank(EXPAND)
    requires Test(r, SIZED, cfg).ret <= 63 && n <= cfg.widthCap
    requires Defined(SelfDetermined(r, env, cfg)) && Value(SelfDetermined(r, env, cfg), V0) == n
    ensures var e := LeftShift(ShLeft, l, r, Some(n));
            Num(EvalAt(e, env, s, Test(e, mode, cfg).ret, cfg), s) == Exact(l, env, s, cfg) * Pow2(n)
  {
    hide Encode, Value, EvalAt, Exact, Test, ShiftVec, Pow2, SelfDetermined, LosslessTree, LosslessWidth, Fits, Num;
    var e := LeftShift(ShLeft, l, r, Some(n));
    var w, a := Test(e, mode, cfg).ret, Exact(l, env, s, cfg);
    KnownShiftGrows(l, r, n, mode, cfg);
    TestMeans(l, SIZED, cfg);
    ShiftedAt(l, r, n, env, s, w, cfg);
    EvalAtEncodes(l, env, s, w, cfg);
    ShiftEncodes(a, n, s, w);
    ExactFits(l, env, s, cfg);
    ShiftedFits(a, LosslessWidth(l, cfg), n, s);
    ExactWhenInRange(a * Pow2(n), w, s);
  }

  lemma NegationEncodes(n: int, w: nat)
    ensures UnaryVec(Neg, Encode(n, w), true) == Encode(-n, w)
  {
    EncodeOfValue(Encode(n, w), V0);
    EncodeDiff(Value(Encode(n, w), V0), n, 0, w);
  }

  /** Unary minus gets no extra bit: at the lossless width it is exact except on the most
      negative value, and at any greater width it is exact. */
  lemma NegationExactness(x: PExpr, env: Env, w: nat, cfg: Config)
    requires LosslessTree(x, env, true, cfg) && w >= LosslessWidth(x, cfg)
    ensures w > 0
    ensures Num(EvalAt(Un(PContext(Neg), x), env, true, w, cfg), true) == -Exact(x, env, true, cfg)
            <==> Exact(x, env, true, cfg) != 0 - Pow2(w - 1)
    ensures w > LosslessWidth(x, cfg) ==> Exact(x, env, true, cfg) != 0 - Pow2(w - 1)
  {
    var n := Exact(x, env, true, cfg);
    ExactFits(x, env, true, cfg);
    FitsWider(n, LosslessWidth(x, cfg), w, true);
    EvalAtEncodes(x, env, true, w, cfg);
    NegationEncodes(n, w);
    assert EvalAt(Un(PContext(Neg), x), env, true, w, cfg) == UnaryVec(Neg, Encode(n, w), true);
    SignedRange(Encode(-n, w));
    if n != 0 - Pow2(w - 1) {
      ExactWhenInRange(-n, w, true);
    }
    if w > LosslessWidth(x, cfg) {
      FitsWider(n, LosslessWidth(x, cfg), w - 1, true);
      assert Pow2(w - 1) == 2 * Pow2(w - 2);
    }
  }

  /** -(-4) of a signed three-bit number is -4 at the width found for it. */
  lemma MinusMostNegative(env: Env, cfg: Config)
    ensures var x := Number([V0, V0, V1], true, false, true);
            && LosslessTree(x, env, true, cfg) && LosslessWidth(x, cfg) == 3 && Exact(x, env, true, cfg) == -4
            && Num(EvalAt(Un(PContext(Neg), x), env, true, 3, cfg), true) != 4
  {
    var x := Number([V0, V0, V1], true, false, true);
    ExactWhenInRange(-4, 3, true);
    assert Encode(-4, 3) == [V0, V0, V1];
    NegationExactness(x, env, 3, cfg);
  }

  // ----- pruning -----

  /** The operators whose low result bits depend only on the low bits of their operands. */
  predicate LowBitsOnly(e: PExpr) {
    match e
    case Binary(op, l, r) => op != PDiv && op != PMod && LowBitsOnly(l) && LowBitsOnly(r)
    case Cond(_, t, f) => LowBitsOnly(t) && LowBitsOnly(f)
    case Un(PContext(_), x) => LowBitsOnly(x)
    case LeftShift(op, l, _, _) => op == ShLeft && LowBitsOnly(l)
    case _ => true
  }

  /** Where an absolute value sees one sign at both widths, or a value that is its own negation
      at the smaller one, so that the choice makes no difference there. */
  predicate AbsAgrees(a: Vec, a2: Vec, s: bool) {
    (Num(a, s) < 0) == (Num(a2, s) < 0) || Encode(-Value(a, V0), |a|) == a
  }

  /** Every abs() of the tree agrees on the sign of its operand at the two widths. */
  predicate SignsAgree(e: PExpr, env: Env, s: bool, w: nat, w2: nat, cfg: Config) {
    match e
    case Binary(_, l, r) => SignsAgree(l, env, s, w, w2, cfg) && SignsAgree(r, env, s, w, w2, cfg)
    case Cond(_, t, f) => SignsAgree(t, env, s, w, w2, cfg) && SignsAgree(f, env, s, w, w2, cfg)
    case Un(PContext(u), x) =>
      && SignsAgree(x, env, s, w, w2, cfg)
      && (u == Abs ==> AbsAgrees(EvalAt(x, env, s, w, cfg), EvalAt(x, env, s, w2, cfg), s))
    case LeftShift(_, l, _, _) => SignsAgree(l, env, s, w, w2, cfg)
    case _ => true
  }

  predicate AbsFree(e: PExpr) {
    match e
    case Binary(_, l, r) => AbsFree(l) && AbsFree(r)
    case Cond(_, t, f) => AbsFree(t) && AbsFree(f)
    case Un(PContext(u), x) => u != Abs && AbsFree(x)
    case LeftShift(_, l, _, _) => AbsFree(l)
    case _ => true
  }

  lemma {:induction false} AbsFreeAgrees(e: PExpr, env: Env, s: bool, w: nat, w2: nat, cfg: Config)
    requires AbsFree(e)
    ensures SignsAgree(e, env, s, w, w2, cfg)
  {
    match e
    case Binary(_, l, r) =>
      AbsFreeAgrees(l, env, s, w, w2, cfg);
      AbsFreeAgrees(r, env, s, w, w2, cfg);
    case Cond(_, t, f) =>
      AbsFreeAgrees(t, env, s, w, w2, cfg);
      AbsFreeAgrees(f, env, s, w, w2, cfg);
    case Un(PContext(_), x) => AbsFreeAgrees(x, env, s, w, w2, cfg);
    case LeftShift(_, l, _, _) => AbsFreeAgrees(l, env, s, w, w2, cfg);
    case _ =>
  }

  predicate ShortLeaves(e: PExpr) {
    match e
    case Number(bits, _, _, _) => |bits| < UINT_MAX
    case Ident(_, w, _, _) => w < UINT_MAX
    case Binary(_, l, r) => ShortLeaves(l) && ShortLeaves(r)
    case Cond(_, t, f) => ShortLeaves(t) && ShortLeaves(f)
    case Un(PContext(_), x) => ShortLeaves(x)
    case LeftShift(_, l, _, _) => ShortLeaves(l)
    case _ => true
  }

  /** Pruning is disabled exactly by / % >> and >>>. */
  lemma {:induction false} PruningDisabled(e: PExpr)
    requires ShortLeaves(e)
    ensures PruneWidth(e) < UINT_MAX <==> LowBitsOnly(e)
  {
    match e
    case Binary(_, l, r) =>
      PruningDisabled(l);
      PruningDisabled(r);
    case Cond(_, t, f) =>
      PruningDisabled(t);
      PruningDisabled(f);
    case Un(_, x) =>
      if e.unOp.PContext? {
        PruningDisabled(x);
      }
    case LeftShift(_, l, _, _) => PruningDisabled(l);
    case _ =>
  }

  lemma {:induction false} AtWidth(e: PExpr, env: Env, s: bool, w: nat, cfg: Config)
    ensures |EvalAt(e, env, s, w, cfg)| == w
  {
    match e
    case Cond(_, t, f) =>
      AtWidth(t, env, s, w, cfg);
      AtWidth(f, env, s, w, cfg);
    case Un(op, x) =>
      if op.PContext? {
        AtWidth(x, env, s, w, cfg);
      }
    case _ =>
  }

  /** At any width / and % truncate towards zero, the remainder having the sign of the dividend; only
      the most negative number over -1 overflows. */
  lemma DividedAt(l: PExpr, r: PExpr, env: Env, s: bool, w: nat, cfg: Config)
    requires w > 0 && Defined(EvalAt(l, env, s, w, cfg)) && Defined(EvalAt(r, env, s, w, cfg))
    requires Num(EvalAt(r, env, s, w, cfg), s) != 0
    ensures var a, b := Num(EvalAt(l, env, s, w, cfg), s), Num(EvalAt(r, env, s, w, cfg), s);
            var q := Num(EvalAt(Binary(PDiv, l, r), env, s, w, cfg), s);
            var m := Num(EvalAt(Binary(PMod, l, r), env, s, w, cfg), s);
            var overflows := s && b == -1 && a == 0 - Pow2(w - 1);
            && (0 - b < m < b || b < m < 0 - b) && (m == 0 || (m < 0) == (a < 0))
            && (a == q * b + m <==> !overflows)
  {
    hide Defined, Num, Pow2, DivVec;
    var a, b := EvalAt(l, env, s, w, cfg), EvalAt(r, env, s, w, cfg);
    AtWidth(l, env, s, w, cfg);
    AtWidth(r, env, s, w, cfg);
    var left, right := Const(Num4(a, true, s)), Const(Num4(b, true, s));
    assert EvalAt(Binary(PDiv, l, r), env, s, w, cfg) == Eval(Div(false, left, right, w, s), env);
    assert EvalAt(Binary(PMod, l, r), env, s, w, cfg) == Eval(Div(true, left, right, w, s), env);
    OperatorMeaning.DivisionMeaning(left, right, w, s, env);
  }

  lemma ProductNeedsTop(a: int, b: int)
    requires a >= 2 && b >= 2
    ensures 2 * ((2 * a - 1) * (2 * b - 1)) >= 2 * a * (2 * b)
  {
    MulOrder(2, a, b - 1);
    var ab := a * b;
    assert (2 * a - 1) * (2 * b - 1) == 4 * ab - 2 * a - 2 * b + 1;
    assert a * (b - 1) == ab - a;
    assert 2 * a * (2 * b) == 4 * ab;
  }

  function AllOnesEnv(m: nat, n: nat): Env {
    i => Fill(V1, if i == 0 then m else n)
  }

  lemma OnesAre(m: nat)
    requires m >= 2
    ensures Num(Fill(V1, m), false) == 2 * Pow2(m - 1) - 1 && Pow2(m) == 2 * Pow2(m - 1) && Pow2(m - 1) >= 2
  {
    AllOnesValue(m);
    Pow2Monotone(1, m - 1);
  }

  /** The lossless width is not generous: on all ones a sum and a product need every bit of it. */
  lemma LosslessIsTight(m: nat, n: nat, cfg: Config)
    requires m >= 2 && n >= 2
    ensures var l, r := Ident(0, m, false, true), Ident(1, n, false, true);
            var sum, product, env := Binary(PAdd, l, r), Binary(PMul, l, r), AllOnesEnv(m, n);
            && 2 * Exact(sum, env, false, cfg) >= Pow2(LosslessWidth(sum, cfg))
            && 2 * Exact(product, env, false, cfg) >= Pow2(LosslessWidth(product, cfg))
  {
    hide Num, Fill;
    OnesAre(m);
    OnesAre(n);
    assert Pow2(m + 1) == 2 * Pow2(m) && Pow2(n + 1) == 2 * Pow2(n);
    hide Pow2;
    Pow2Add(m, n);
    ProductNeedsTop(Pow2(m - 1), Pow2(n - 1));
  }

  function Clipped(n: int, cap: int): int {
    if n < cap then n else cap
  }

  /** A shift amount of w bits is guessed as the largest that it may have, within the cap. */
  lemma GuessMeans(w: nat, s: bool, cfg: Config)
    requires w <= LONG_BITS
    ensures exists v: Vec :: |v| == w && Defined(v)
                             && ShiftGuess(w, s, None, cfg) == Clipped(Value(v, V0), cfg.widthCap)
    ensures forall v: Vec :: |v| == w && Defined(v) ==>
              Clipped(Value(v, V0), cfg.widthCap) <= ShiftGuess(w, s, None, cfg)
  {
    AllOnesValue(w);
    assert |Fill(V1, w)| == w && Defined(Fill(V1, w));
    forall v: Vec | |v| == w && Defined(v)
      ensures 0 <= Value(v, V0) < Pow2(w)
    {
      ValueRange(v);
    }
  }

  /** Fully defined leaves, conditions, shift amounts and comparison results. */
  ghost predicate AllDefined(e: PExpr, env: Env, cfg: Config) {
    match e
    case Number(bits, _, _, _) => Defined(bits)
    case Ident(id, _, _, _) => Defined(env(id))
    case Binary(_, l, r) => AllDefined(l, env, cfg) && AllDefined(r, env, cfg)
    case Cond(c, t, f) => Defined(SelfDetermined(c, env, cfg)) && AllDefined(t, env, cfg) && AllDefined(f, env, cfg)
    case Un(PContext(_), x) => AllDefined(x, env, cfg)
    case Un(PReduce(_), x) => Defined(SelfDetermined(x, env, cfg))
    case Compare(_, _, _) => Known(CompareAt(e, env, cfg))
    case LeftShift(_, l, r, _) => AllDefined(l, env, cfg) && Defined(SelfDetermined(r, env, cfg))
  }

  /** u is the low part of the defined vector v. */
  predicate LowPart(u: Vec, v: Vec, w: nat) {
    |u| == w <= |v| && Defined(v) && v[..w] == u
  }

  lemma LowPartEncode(u: Vec, v: Vec, w: nat)
    requires LowPart(u, v, w)
    ensures Defined(u) && Encode(Value(v, V0), w) == u == Encode(Value(u, V0), w)
  {
    EncodeOfValue(v, V0);
    EncodePrefix(Value(v, V0), |v|, w);
    EncodeOfValue(u, V0);
  }

  lemma ArithLowPart(a: Vec, a2: Vec, b: Vec, b2: Vec, w: nat, w2: nat)
    requires LowPart(a, a2, w) && LowPart(b, b2, w) && |a2| == |b2| == w2
    ensures LowPart(AddVec(OpPlus, a, b, w), AddVec(OpPlus, a2, b2, w2), w)
    ensures LowPart(AddVec(OpMinus, a, b, w), AddVec(OpMinus, a2, b2, w2), w)
    ensures LowPart(MultVec(a, b, w), MultVec(a2, b2, w2), w)
    ensures LowPart(UnaryVec(Neg, a, true), UnaryVec(Neg, a2, true), w)
  {
    LowPartEncode(a, a2, w);
    LowPartEncode(b, b2, w);
    var x, y := Value(a2, V0), Value(b2, V0);
    EncodeRing(x, Value(a, V0), y, Value(b, V0), w);
    EncodeDiff(x, Value(a, V0), 0, w);
    EncodePrefix(x + y, w2, w);
    EncodePrefix(x - y, w2, w);
    EncodePrefix(x * y, w2, w);
    EncodePrefix(-x, w2, w);
  }

  lemma BitsLowPart(op: BitsOp, a: Vec, a2: Vec, b: Vec, b2: Vec, w: nat, w2: nat)
    requires LowPart(a, a2, w) && LowPart(b, b2, w) && |a2| == |b2| == w2
    ensures LowPart(BitsVec(op, a, b, w), BitsVec(op, a2, b2, w2), w)
    ensures LowPart(NotVec(a), NotVec(a2), w)
  {
    assert forall i :: 0 <= i < w ==> a[i] == a2[i] && b[i] == b2[i];
  }

  lemma DefinedPrefix(a: Vec, a2: Vec, w: nat)
    requires LowPart(a, a2, w)
    ensures Defined(a)
  {
    assert forall i :: 0 <= i < w ==> a[i] == a2[i];
  }

  /** Two widths of an absolute value agree on the low bits exactly when the signs that it sees
      agree, or the value is its own negation at the smaller width. */
  lemma AbsLowPart(a: Vec, a2: Vec, s: bool, w: nat, w2: nat)
    requires LowPart(a, a2, w) && |a2| == w2 && w > 0
    ensures LowPart(UnaryVec(Abs, a, s), UnaryVec(Abs, a2, s), w) <==> AbsAgrees(a, a2, s)
  {
    hide Encode, Value;
    ArithLowPart(a, a2, a, a2, w, w2);
    DefinedPrefix(a, a2, w);
    var n, n2 := Encode(-Value(a, V0), w), Encode(-Value(a2, V0), w2);
    assert n2[..w] == n && a2[..w] == a;
  }

  /** At width 0 there is nothing to see. */
  lemma NothingLow(u: Vec, v: Vec)
    requires |u| == 0 && Defined(v)
    ensures LowPart(u, v, 0)
  {
  }

  lemma ShiftLowPart(a: Vec, a2: Vec, r: Vec, s: bool, w: nat, w2: nat)
    requires LowPart(a, a2, w) && |a2| == w2 && Defined(r)
    ensures LowPart(ShiftBy(ShLeft, a, r, s, w), ShiftBy(ShLeft, a2, r, s, w2), w)
  {
    ValueRange(r);
    var n := Value(r, V0);
    var x, x2 := ShiftVec(ShLeft, a, n, s, w), ShiftVec(ShLeft, a2, n, s, w2);
    assert forall i :: 0 <= i < w2 ==> x2[i] == if i < n then V0 else At(a2, i - n, V0);
    assert forall i :: 0 <= i < w ==> x[i] == if i < n then V0 else At(a, i - n, V0);
    assert forall i :: 0 <= i < w ==> At(a, i, V0) == At(a2, i, V0);
    assert forall i :: 0 <= i < w ==> x[i] == x2[i];
  }

  lemma ExtendLowPart(v: Vec, s: bool, w: nat, w2: nat)
    requires Defined(v) && w <= w2
    ensures LowPart(ExtendVec(v, s, w), ExtendVec(v, s, w2), w)
  {
  }

  lemma LiteralLowPart(bits: Vec, hasLen: bool, isSingle: bool, sign: bool, s: bool, w: nat, w2: nat)
    requires Defined(bits) && w <= w2
    ensures LowPart(LiteralVec(bits, hasLen, isSingle, sign, s, w), LiteralVec(bits, hasLen, isSingle, sign, s, w2), w)
  {
    ExtendLowPart(bits, isSingle || if hasLen then s else sign, w, w2);
  }

  /** Pruning is safe: where it is not disabled, evaluating at a smaller width gives the low
      bits of evaluating at a larger one. */
  lemma {:induction false} PruningSafe(e: PExpr, env: Env, s: bool, w: nat, w2: nat, cfg: Config)
    requires LowBitsOnly(e) && SignsAgree(e, env, s, w, w2, cfg) && AllDefined(e, env, cfg) && w <= w2
    ensures |EvalAt(e, env, s, w2, cfg)| == w2
    ensures LowPart(EvalAt(e, env, s, w, cfg), EvalAt(e, env, s, w2, cfg), w)
    decreases e, 1
  {
    match e
    case Number(bits, hasLen, single, sign) =>
      LiteralLowPart(bits, hasLen, single, sign, s, w, w2);
    case Ident(id, _, _, _) => ExtendLowPart(env(id), s, w, w2);
    case Binary(_, _, _) => PruningBinary(e, env, s, w, w2, cfg);
    case Cond(c, t, f) =>
      PruningSafe(t, env, s, w, w2, cfg);
      PruningSafe(f, env, s, w, w2, cfg);
    case Un(PContext(_), _) => PruningUnary(e, env, s, w, w2, cfg);
    case Un(PReduce(o), x) => ExtendLowPart([ReduceBit(o, SelfDetermined(x, env, cfg))], false, w, w2);
    case Compare(_, _, _) => ExtendLowPart([CompareAt(e, env, cfg)], false, w, w2);
    case LeftShift(op, l, r, _) =>
      PruningSafe(l, env, s, w, w2, cfg);
      ShiftLowPart(EvalAt(l, env, s, w, cfg), EvalAt(l, env, s, w2, cfg), SelfDetermined(r, env, cfg), s, w, w2);
  }

  lemma {:induction false} PruningBinary(e: PExpr, env: Env, s: bool, w: nat, w2: nat, cfg: Config)
    requires e.Binary? && LowBitsOnly(e) && SignsAgree(e, env, s, w, w2, cfg) && AllDefined(e, env, cfg) && w <= w2
    ensures |EvalAt(e, env, s, w2, cfg)| == w2
    ensures LowPart(EvalAt(e, env, s, w, cfg), EvalAt(e, env, s, w2, cfg), w)
    decreases e, 0
  {
    PruningSafe(e.l, env, s, w, w2, cfg);
    PruningSafe(e.r, env, s, w, w2, cfg);
    var a, a2 := EvalAt(e.l, env, s, w, cfg), EvalAt(e.l, env, s, w2, cfg);
    var b, b2 := EvalAt(e.r, env, s, w, cfg), EvalAt(e.r, env, s, w2, cfg);
    ArithLowPart(a, a2, b, b2, w, w2);
    if e.op.PBits? {
      BitsLowPart(e.op.bits, a, a2, b, b2, w, w2);
    }
  }

  lemma {:induction false} PruningUnary(e: PExpr, env: Env, s: bool, w: nat, w2: nat, cfg: Config)
    requires e.Un? && e.unOp.PContext? && LowBitsOnly(e) && SignsAgree(e, env, s, w, w2, cfg)
        && AllDefined(e, env, cfg) && w <= w2
    ensures |EvalAt(e, env, s, w2, cfg)| == w2
    ensures LowPart(EvalAt(e, env, s, w, cfg), EvalAt(e, env, s, w2, cfg), w)
    decreases e, 0
  {
    PruningSafe(e.x, env, s, w, w2, cfg);
    var a, a2 := EvalAt(e.x, env, s, w, cfg), EvalAt(e.x, env, s, w2, cfg);
    ArithLowPart(a, a2, a, a2, w, w2);
    BitsLowPart(BitAnd, a, a2, a, a2, w, w2);
    if e.unOp.unary == Abs {
      if w > 0 {
        AbsLowPart(a, a2, s, w, w2);
      } else {
        NothingLow(UnaryVec(Abs, a, s), UnaryVec(Abs, a2, s));
      }
    }
  }

  lemma ValueOneBit()
    ensures Value([V1], V0) == 1 && Value([V1, V0], V0) == 1
    ensures Encode(2, 1) == [V0] && Encode(2, 2) == [V0, V1]
  {
    assert [V1][1..] == [] && [V1, V0][1..] == [V0] && [V0][1..] == [];
    assert Value([V0], V0) == 0;
    assert Encode(1, 1) == [V1] + Encode(0, 0);
    assert Encode(2, 2) == [V0] + Encode(1, 1);
  }

  /** A right shift is disabled for a reason: (1 + 1) >> 1 is 0 at one bit and 1 at two. */
  lemma RightShiftNeedsTheCarry(env: Env, cfg: Config)
    ensures var one := Number([V1], true, false, false);
            var e := LeftShift(ShRight, Binary(PAdd, one, one), one, Some(1));
            EvalAt(e, env, false, 1, cfg) == [V0] && EvalAt(e, env, false, 2, cfg) == [V1, V0]
  {
    var one := Number([V1], true, false, false);
    var sum := Binary(PAdd, one, one);
    assert EvalAt(one, env, false, 1, cfg) == [V1] && EvalAt(one, env, false, 2, cfg) == [V1, V0];
    assert Test(one, SIZED, cfg).width == 1;
    assert SelfDetermined(one, env, cfg) == [V1];
    ValueOneBit();
    assert EvalAt(sum, env, false, 1, cfg) == Encode(2, 1) == [V0];
    assert EvalAt(sum, env, false, 2, cfg) == Encode(2, 2) == [V0, V1];
    var x, y := ShiftVec(ShRight, [V0], 1, false, 1), ShiftVec(ShRight, [V0, V1], 1, false, 2);
    assert x[0] == At([V0], 1, V0) && y[0] == At([V0, V1], 1, V0) && y[1] == At([V0, V1], 2, V0);
  }

  /** The width at which an expression is evaluated for a target of `context` bits, 0 for none:
      its own width or the target's, and then what the low bits need unless pruning is disabled. */
  function AssignedWidth(exprWidth: nat, minWidth: nat, context: nat): nat {
    var w := Max(exprWidth, context);
    if minWidth != UINT_MAX && context > 0 && w > context then Max(minWidth, context) else w
  }

  /** Pruning leaves the bits that are assigned, when every abs() agrees on its sign. */
  lemma PruningKeepsAssignedBits(e: PExpr, env: Env, s: bool, context: nat, full: nat, used: nat, cfg: Config)
    requires full == Max(Test(e, SIZED, cfg).width, context)
    requires used == AssignedWidth(Test(e, SIZED, cfg).width, Test(e, SIZED, cfg).minWidth, context)
    requires LowBitsOnly(e) && AllDefined(e, env, cfg) && SignsAgree(e, env, s, Min(used, full), Max(used, full), cfg)
    ensures |EvalAt(e, env, s, used, cfg)| == used >= context && |EvalAt(e, env, s, full, cfg)| == full
    ensures EvalAt(e, env, s, used, cfg)[..context] == EvalAt(e, env, s, full, cfg)[..context]
  {
    var lo, hi := Min(used, full), Max(used, full);
    PruningSafe(e, env, s, lo, hi, cfg);
    assert EvalAt(e, env, s, hi, cfg)[..lo][..context] == EvalAt(e, env, s, hi, cfg)[..context];
  }

  /** Without abs() there is nothing to agree on: pruning always keeps the assigned bits, and any
      two widths agree on the low ones. */
  lemma AbsFreePruning(e: PExpr, env: Env, s: bool, context: nat, full: nat, used: nat, cfg: Config)
    requires AbsFree(e) && LowBitsOnly(e) && AllDefined(e, env, cfg)
    ensures forall w: nat, w2: nat :: w <= w2 ==> LowPart(EvalAt(e, env, s, w, cfg), EvalAt(e, env, s, w2, cfg), w)
    ensures var t := Test(e, SIZED, cfg);
            full == Max(t.width, context) && used == AssignedWidth(t.width, t.minWidth, context) ==>
              && |EvalAt(e, env, s, used, cfg)| == used >= context && |EvalAt(e, env, s, full, cfg)| == full
              && EvalAt(e, env, s, used, cfg)[..context] == EvalAt(e, env, s, full, cfg)[..context]
  {
    hide EvalAt, Test, LowBitsOnly, AllDefined, AbsFree, SignsAgree;
    forall w: nat, w2: nat | w <= w2
      ensures LowPart(EvalAt(e, env, s, w, cfg), EvalAt(e, env, s, w2, cfg), w)
    {
      AbsFreeAgrees(e, env, s, w, w2, cfg);
      PruningSafe(e, env, s, w, w2, cfg);
    }
    var t := Test(e, SIZED, cfg);
    if full == Max(t.width, context) && used == AssignedWidth(t.width, t.minWidth, context) {
      AbsFreeAgrees(e, env, s, Min(used, full), Max(used, full), cfg);
      PruningKeepsAssignedBits(e, env, s, context, full, used, cfg);
    }
  }

  /** abs(a + 3) for a signed three-bit a and an unsized literal. */
  function AbsOfSum(): PExpr {
    Un(PContext(Abs), Binary(PAdd, Ident(0, 3, true, true), Number([V1, V1, V0], false, false, true)))
  }

  /** It has the width of an integer, and is pruned to three bits for a target of three bits. */
  lemma AbsIsPruned(cfg: Config)
    requires !cfg.strict && 4 <= cfg.integerWidth < UINT_MAX
    ensures var t := Test(AbsOfSum(), SIZED, cfg);
            t.width == cfg.integerWidth && AssignedWidth(t.width, t.minWidth, 3) == 3
    ensures LowBitsOnly(AbsOfSum())
  {
    var a, three := Ident(0, 3, true, true), Number([V1, V1, V0], false, false, true);
    assert Test(three, SIZED, cfg) == Tested(cfg.integerWidth, UNSIZED, cfg.integerWidth, 3, true);
    assert Test(a, UNSIZED, cfg) == Tested(3, UNSIZED, 3, 3, true);
    assert Test(Binary(PAdd, a, three), SIZED, cfg).width == cfg.integerWidth;
  }

  lemma EightAndFour(w: nat)
    requires w >= 4
    ensures Pow2(3) == 8 && Pow2(2) == 4 && Pow2(w - 1) >= 8
  {
    Pow2Monotone(3, w - 1);
  }

  lemma SixWraps(w: nat)
    requires w >= 4
    ensures Num(Encode(6, 3), true) == -2 && Num(Encode(6, w), true) == 6
    ensures Encode(-6, 3) == Encode(2, 3) != Encode(6, 3)
  {
    hide Pow2, Encode, Num;
    EightAndFour(w);
    EncodeCongruent(-2, 1, 3);
    EncodeCongruent(2, -1, 3);
    ExactWhenInRange(-2, 3, true);
    ExactWhenInRange(2, 3, true);
    ExactWhenInRange(6, w, true);
  }

  lemma AbsOfSix(w: nat)
    requires w >= 4
    ensures UnaryVec(Abs, Encode(6, 3), true) == Encode(2, 3) != Encode(6, 3)
    ensures UnaryVec(Abs, Encode(6, w), true)[..3] == Encode(6, 3)
  {
    hide Encode, Value;
    SixWraps(w);
    EncodePrefix(6, w, 3);
    NegationEncodes(6, 3);
    assert UnaryVec(Abs, Encode(6, 3), true) == UnaryVec(Neg, Encode(6, 3), true);
  }

  lemma AbsAtWidth(sum: PExpr, bits: Vec, env: Env, w: nat, cfg: Config, a: PExpr, three: PExpr)
    requires a == Ident(0, 3, true, true) && three == Number(bits, false, false, true) && sum == Binary(PAdd, a, three)
    requires env(0) == bits && Defined(bits) && Num(bits, true) == 3
    ensures EvalAt(sum, env, true, w, cfg) == Encode(6, w)
    ensures EvalAt(Un(PContext(Abs), sum), env, true, w, cfg) == UnaryVec(Abs, Encode(6, w), true)
  {
    hide Encode, Value;
    ExtendEncodes(bits, true, w);
    EncodedOperands(3, 3, w);
  }

  lemma ThreeIsThree()
    ensures Num([V1, V1, V0], true) == 3
  {
    ExactWhenInRange(3, 3, true);
    assert Encode(3, 3) == [V1, V1, V0];
  }

  /** abs() is not disabled but does look at the sign: with a = 3 the sum is 6, and its absolute
      value in three bits is 2 where the low bits of 6 are meant. */
  lemma AbsNeedsTheSign(env: Env, w: nat, cfg: Config)
    requires w >= 4 && env(0) == [V1, V1, V0]
    ensures EvalAt(AbsOfSum(), env, true, 3, cfg) == Encode(2, 3)
    ensures |EvalAt(AbsOfSum(), env, true, w, cfg)| == w
    ensures EvalAt(AbsOfSum(), env, true, w, cfg)[..3] == Encode(6, 3) != Encode(2, 3)
  {
    var bits := [V1, V1, V0];
    var a, three := Ident(0, 3, true, true), Number(bits, false, false, true);
    ThreeIsThree();
    hide Encode, Value;
    AbsAtWidth(Binary(PAdd, a, three), bits, env, 3, cfg, a, three);
    AbsAtWidth(Binary(PAdd, a, three), bits, env, w, cfg, a, three);
    AbsOfSix(w);
  }
}
