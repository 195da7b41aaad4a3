/** The constant folder: `Fold` is what eval_expr leaves behind
    (qflow-org/iverilog/eval_tree.cc:92-1600, netmisc.cc:1035-1045, 1231-1269). */
module Folding {
  import opened FourState
  import opened TwosComplement
  import opened Verinum
  import opened NetExpr

  function OneBit(b: Bit): Num4 {
    Num4([b], true, false)
  }

  function BothSigned(l: Num4, r: Num4): bool {
    l.hasSign && r.hasSign
  }

  // ----- additive operators -----

  function AddConst(op: AddOp, l: Num4, r: Num4, w: nat): Num4 {
    Num4(AddVec(op, l.bits, r.bits, w), true, BothSigned(l, r))
  }

  /** (a op1 c1) op2 c2 becomes a op2 (c2 + c1) or a op2 (c2 - c1). */
  function FoldAdd(op: AddOp, l: Expr, r: Expr, w: nat, s: bool): Expr {
    if l.Const? && r.Const? then Const(AddConst(op, l.v, r.v, w))
    else if l.Add? && l.r.Const? && r.Const? then
      Add(op, l.l, Const(AddConst(if op == l.addOp then OpPlus else OpMinus, r.v, l.r.v, w)), w, s)
    else Add(op, l, r, w, s)
  }

  // ----- comparisons -----

  /** The largest value an unknown two-state operand can have. */
  function Largest(w: nat, signed: bool): (v: Vec)
    ensures |v| == w
  {
    if signed && w > 0 then Fill(V1, w - 1) + [V0] else Fill(V1, w)
  }

  /** must_be_leeq_: the unknown operand is below the constant whatever its value. */
  predicate MustBeBelow(e: Expr, c: Num4, orEqual: bool) {
    && TwoState(e)
    && var s := Sign(e) && c.hasSign;
       var m := Num(Largest(Width(e), s), s);
       m < Num(c.bits, s) || (orEqual && m == Num(c.bits, s))
  }

  /** eval_less_, eval_leeq_ (constant on the right), eval_gt_, eval_gteq_ (on the left). */
  function OrderConst(op: CompOp, l: Expr, r: Expr): Option<Num4>
    requires op in {Lt, Le, Gt, Ge}
  {
    var (c, e) := if op == Lt || op == Le then (r, l) else (l, r);
    if !c.Const? then None
    else if !Defined(c.v.bits) then Some(OneBit(VX))
    else if MustBeBelow(e, c.v, op == Le || op == Ge) then Some(OneBit(V1))
    else if !e.Const? then None
    else if !Defined(e.v.bits) then Some(OneBit(VX))
    else
      var s := BothSigned(l.v, r.v);
      Some(OneBit(OrderBit(op, Num(l.v.bits, s), Num(r.v.bits, s))))
  }

  function CompConst(op: CompOp, l: Expr, r: Expr): Option<Num4> {
    if op in {Lt, Le, Gt, Ge} then OrderConst(op, l, r)
    else if l.Const? && r.Const? then Some(OneBit(CompBit(op, l.v.bits, r.v.bits, BothSigned(l.v, r.v))))
    else None
  }

  // ----- the rest -----

  /** eval_arguments_ has no case for nand and nor. */
  predicate HasFold(op: BitsOp) {
    op != BitNand && op != BitNor
  }

  predicate AllConst(es: seq<Expr>) {
    forall i :: 0 <= i < |es| ==> es[i].Const?
  }

  function ConstVecs(es: seq<Expr>): (vs: seq<Vec>)
    requires AllConst(es)
    ensures |vs| == |es|
  {
    if es == [] then [] else [es[0].v.bits] + ConstVecs(es[1..])
  }

  function FoldBits(op: BitsOp, l: Expr, r: Expr, w: nat, s: bool): Expr {
    if l.Const? && r.Const? && HasFold(op) then Const(Num4(BitsVec(op, l.v.bits, r.v.bits, w), true, s))
    else Bits(op, l, r, w, s)
  }

  function FoldMult(l: Expr, r: Expr, w: nat, s: bool): Expr {
    if l.Const? && r.Const? then Const(Num4(MultVec(l.v.bits, r.v.bits, w), true, BothSigned(l.v, r.v)))
    else Mult(l, r, w, s)
  }

  function FoldDiv(mod: bool, l: Expr, r: Expr, w: nat, s: bool): Expr {
    if l.Const? && r.Const? then
      var signed := BothSigned(l.v, r.v);
      Const(Num4(DivVec(mod, l.v.bits, r.v.bits, signed, w), true, signed))
    else Div(mod, l, r, w, s)
  }

  function FoldComp(op: CompOp, l: Expr, r: Expr): Expr {
    match CompConst(op, l, r)
    case Some(v) => Const(v)
    case None => Comp(op, l, r)
  }

  function FoldLogic(op: LogicOp, l: Expr, r: Expr): Expr {
    if l.Const? && r.Const? then Const(OneBit(LogicBit(op, Logical(l.v.bits), Logical(r.v.bits))))
    else Logic(op, l, r)
  }

  function FoldShift(op: ShiftOp, l: Expr, r: Expr, w: nat, s: bool): Expr {
    if l.Const? && r.Const? then
      Const(Num4(if Defined(r.v.bits) then ShiftVec(op, l.v.bits, AsUnsigned(r.v), l.v.hasSign, w)
          else Fill(VX, w), true, s))
    else Shift(op, l, r, w, s)
  }

  function FoldConcat(ps: seq<Expr>, n: nat, s: bool, two: bool): Expr {
    if AllConst(ps) then Const(Num4(Replicate(Cat(ConstVecs(ps)), n), true, s)) else Concat(ps, n, s, two)
  }

  function FoldExtend(x: Expr, w: nat, s: bool): Expr {
    if x.Const? then Const(Num4(ExtendVec(x.v.bits, s, w), true, s)) else Extend(x, w, s)
  }

  function FoldSelect(x: Expr, b: Expr, w: nat, s: bool): Expr {
    if x.Const? && b.Const? then Const(Num4(SelectVec(x.v.bits, AsLong(b.v), w), true, s)) else Select(x, b, w, s)
  }

  /** An unknown constant condition blends two constant branches. */
  function FoldBlend(c: Expr, t: Expr, f: Expr, w: nat, s: bool): Expr {
    if t.Const? && f.Const? then Const(Num4(Blend(t.v.bits, f.v.bits), true, s)) else Ternary(c, t, f, w, s)
  }

  /** A ternary whose condition is folded; its branches are folded only when that is constant. */
  function PickedBranch(c: Expr, t: Expr, f: Expr, foldedT: Expr, foldedF: Expr, w: nat, s: bool): Expr {
    if !c.Const? then Ternary(c, t, f, w, s)
    else if Logical(c.v.bits) == V1 then foldedT
    else if Logical(c.v.bits) == V0 then foldedF
    else FoldBlend(c, foldedT, foldedF, w, s)
  }

  function FoldUnary(op: UnaryOp, x: Expr, w: nat, s: bool): Expr {
    if x.Const? then Const(Num4(UnaryVec(op, x.v.bits, x.v.hasSign), x.v.hasLen, x.v.hasSign)) else Unary(op, x, w, s)
  }

  function FoldReduce(op: ReduceOp, x: Expr): Expr {
    if x.Const? then Const(OneBit(ReduceBit(op, x.v.bits))) else Reduce(op, x)
  }

  function Fold(e: Expr): Expr
    decreases e, 1
  {
    match e
    case Const(_) => e
    case Signal(_, _, _, _) => e
    case Add(op, l, r, w, s) => FoldAdd(op, Fold(l), Fold(r), w, s)
    case Bits(op, l, r, w, s) => FoldBits(op, Fold(l), Fold(r), w, s)
    case Mult(l, r, w, s) => FoldMult(Fold(l), Fold(r), w, s)
    case Div(mod, l, r, w, s) => FoldDiv(mod, Fold(l), Fold(r), w, s)
    case Comp(op, l, r) => FoldComp(op, Fold(l), Fold(r))
    case Logic(op, l, r) => FoldLogic(op, Fold(l), Fold(r))
    case Shift(op, l, r, w, s) => FoldShift(op, Fold(l), Fold(r), w, s)
    case Concat(ps, n, s, two) => FoldConcat(FoldAll(ps), n, s, two)
    case Extend(x, w, s) => FoldExtend(Fold(x), w, s)
    case Select(x, b, w, s) => FoldSelect(Fold(x), Fold(b), w, s)
    case Ternary(c, t, f, w, s) => PickedBranch(Fold(c), t, f, Fold(t), Fold(f), w, s)
    case Unary(op, x, w, s) => FoldUnary(op, Fold(x), w, s)
    case Reduce(op, x) => FoldReduce(op, Fold(x))
  }

  function FoldAll(es: seq<Expr>): (fs: seq<Expr>)
    ensures |fs| == |es|
    decreases es, 0
  {
    if es == [] then [] else [Fold(es[0])] + FoldAll(es[1..])
  }

  // ----- where folding is exact -----

  /** A comparison was decided from the range of one operand. */
  predicate DecidedByRange(op: CompOp, l: Expr, r: Expr) {
    && op in {Lt, Le, Gt, Ge}
    && var (c, e) := if op == Lt || op == Le then (r, l) else (l, r);
       c.Const? && Defined(c.v.bits) && MustBeBelow(e, c.v, op == Le || op == Ge)
  }

  /** A constant select position that as_long reports faithfully: defined and within a long. */
  predicate ExactPosition(b: Num4) {
    Defined(b.bits) && AsLong(b) == IntOf(b)
  }

  /** The two places where folding may differ from the meaning do not arise: a range-decided
      operand holds no x or z, and a constant select of a constant has a faithful position. */
  ghost predicate Safe(e: Expr, env: Env)
    decreases e, 1
  {
    match e
    case Const(_) => true
    case Signal(_, _, _, _) => true
    case Add(_, l, r, _, _) => Safe(l, env) && Safe(r, env)
    case Bits(_, l, r, _, _) => Safe(l, env) && Safe(r, env)
    case Mult(l, r, _, _) => Safe(l, env) && Safe(r, env)
    case Div(_, l, r, _, _) => Safe(l, env) && Safe(r, env)
    case Comp(op, l, r) =>
      && Safe(l, env) && Safe(r, env)
      && (DecidedByRange(op, Fold(l), Fold(r)) ==> Defined(Eval(l, env)) && Defined(Eval(r, env)))
    case Logic(_, l, r) => Safe(l, env) && Safe(r, env)
    case Shift(_, l, r, _, _) => Safe(l, env) && Safe(r, env)
    case Concat(ps, _, _, _) => AllSafe(ps, env)
    case Extend(x, _, _) => Safe(x, env)
    case Select(x, b, _, _) =>
      && Safe(x, env) && Safe(b, env)
      && (Fold(x).Const? && Fold(b).Const? ==> ExactPosition(Fold(b).v))
    case Ternary(c, t, f, _, _) => Safe(c, env) && Safe(t, env) && Safe(f, env)
    case Unary(_, x, _, _) => Safe(x, env)
    case Reduce(_, x) => Safe(x, env)
  }

  ghost predicate AllSafe(es: seq<Expr>, env: Env)
    decreases es, 0
  {
    es == [] || (Safe(es[0], env) && AllSafe(es[1..], env))
  }

  // ----- lemmas per operator -----

  function AddInt(op: AddOp, x: int, y: int): int {
    if op == OpPlus then x + y else x - y
  }

  /** Cutting an operand to w bits first does not change the w-bit result. */
  lemma Cut(op: AddOp, n: int, m: int, w: nat)
    ensures Encode(AddInt(op, Value(Encode(n, w), V0), m), w) == Encode(AddInt(op, n, m), w)
    ensures Encode(AddInt(op, m, Value(Encode(n, w), V0)), w) == Encode(AddInt(op, m, n), w)
  {
    hide Pow2, Value, Encode;
    var c := Value(Encode(n, w), V0);
    EncodeOfValue(Encode(n, w), V0);
    if op == OpPlus {
      EncodeSum(c, n, m, w);
      assert AddInt(op, m, c) == c + m && AddInt(op, m, n) == n + m;
    } else {
      EncodeSum(c, n, -m, w);
      assert c + -m == c - m && n + -m == n - m;
      EncodeDiff(c, n, m, w);
    }
  }

  lemma ReassociateInts(op: AddOp, inner: AddOp, x: int, y: int, z: int, w: nat)
    ensures var both := AddInt(if op == inner then OpPlus else OpMinus, z, y);
            Encode(AddInt(op, Value(Encode(AddInt(inner, x, y), w), V0), z), w)
            == Encode(AddInt(op, x, Value(Encode(both, w), V0)), w)
  {
    var both := AddInt(if op == inner then OpPlus else OpMinus, z, y);
    Cut(op, AddInt(inner, x, y), z, w);
    Cut(op, both, x, w);
    assert AddInt(op, AddInt(inner, x, y), z) == AddInt(op, x, both);
  }

  /** The rewritten constant has the same effect on any left operand. */
  lemma Reassociate(op: AddOp, inner: AddOp, a: Vec, l: Vec, r: Vec, w: nat)
    requires |l| == |r| == w > 0
    ensures AddVec(op, AddVec(inner, a, l, w), r, w)
            == AddVec(op, a, AddVec(if op == inner then OpPlus else OpMinus, r, l, w), w)
  {
    if Defined(a) && Defined(l) && Defined(r) {
      ReassociateInts(op, inner, Value(a, V0), Value(l, V0), Value(r, V0), w);
    } else {
      assert !Defined(Fill(VX, w)) by { assert Fill(VX, w)[0] == VX; }
    }
  }

  /** No defined vector exceeds the bound that must_be_leeq_ builds. */
  lemma {:induction false} AtMostLargest(v: Vec, signed: bool)
    requires Defined(v)
    ensures Num(v, signed) <= Num(Largest(|v|, signed), signed)
  {
    if signed && |v| > 0 {
      var n := |v| - 1;
      SignedRange(v);
      var m := Largest(|v|, true);
      assert m[|m| - 1] == V0;
      ValueExtend(Fill(V1, n), V0, 1);
      assert m == Fill(V1, n) + Fill(V0, 1);
      AllOnesValue(n);
    } else {
      ValueRange(v);
      AllOnesValue(|v|);
    }
  }

  /** The folded comparison, given what it says about each operand's value. */
  lemma OrderConstSound(op: CompOp, l: Expr, r: Expr, lv: Vec, rv: Vec)
    requires op in {Lt, Le, Gt, Ge} && OrderConst(op, l, r).Some?
    requires |lv| == Width(l) == |rv| == Width(r)
    requires l.Const? ==> lv == l.v.bits
    requires r.Const? ==> rv == r.v.bits
    requires DecidedByRange(op, l, r) ==> Defined(lv) && Defined(rv)
    ensures OrderConst(op, l, r).value == OneBit(CompBit(op, lv, rv, Sign(l) && Sign(r)))
  {
    var s := Sign(l) && Sign(r);
    if DecidedByRange(op, l, r) {
      AtMostLargest(lv, s);
      AtMostLargest(rv, s);
    }
  }

  predicate SameShape(f: Expr, e: Expr) {
    WellFormed(f) && Width(f) == Width(e) && Sign(f) == Sign(e) && (Sized(e) ==> Sized(f))
  }

  lemma FoldShapeLeaf(e: Expr)
    requires e.Const? || e.Signal?
    requires WellFormed(e)
    ensures SameShape(Fold(e), e)
  {
  }

  /** Folding keeps width, sign and well-formedness. */
  lemma {:induction false} FoldShape(e: Expr)
    requires WellFormed(e)
    ensures SameShape(Fold(e), e)
    decreases e, 1
  {
    hide *;
    if e.Const? || e.Signal? {
      FoldShapeLeaf(e);
    } else if e.Add? {
      FoldShapeAdd(e);
    } else if e.Bits? || e.Mult? || e.Div? || e.Shift? {
      FoldShapeArith(e);
    } else if e.Comp? {
      FoldShapeComp(e);
    } else if e.Logic? {
      FoldShapeLogic(e);
    } else if e.Ternary? {
      FoldShapeTernary(e);
    } else if e.Concat? {
      FoldShapeConcat(e);
    } else {
      FoldShapeUnary(e);
    }
  }

  lemma {:induction false} FoldShapeAdd(e: Expr)
    requires e.Add? && WellFormed(e)
    ensures SameShape(Fold(e), e)
    decreases e, 0
  {
    FoldShape(e.l);
    FoldShape(e.r);
  }

  lemma {:induction false} FoldShapeArith(e: Expr)
    requires e.Bits? || e.Mult? || e.Div? || e.Shift?
    requires WellFormed(e)
    ensures SameShape(Fold(e), e)
    decreases e, 0
  {
    FoldShape(e.l);
    FoldShape(e.r);
  }

  lemma {:induction false} FoldShapeComp(e: Expr)
    requires e.Comp? && WellFormed(e)
    ensures SameShape(Fold(e), e)
    decreases e, 0
  {
    hide CompBit, OrderBit, MustBeBelow, TwoState;
    FoldShape(e.l);
    FoldShape(e.r);
  }

  lemma {:induction false} FoldShapeLogic(e: Expr)
    requires e.Logic? && WellFormed(e)
    ensures SameShape(Fold(e), e)
    decreases e, 0
  {
    hide Logical;
    FoldShape(e.l);
    FoldShape(e.r);
  }

  lemma {:induction false} FoldShapeTernary(e: Expr)
    requires e.Ternary? && WellFormed(e)
    ensures SameShape(Fold(e), e)
    decreases e, 0
  {
    FoldShape(e.cond);
    FoldShape(e.t);
    FoldShape(e.f);
  }

  lemma {:induction false} FoldShapeConcat(e: Expr)
    requires e.Concat? && WellFormed(e)
    ensures SameShape(Fold(e), e)
    decreases e, 0
  {
    FoldAllShape(e.parms);
  }

  lemma {:induction false} FoldShapeUnary(e: Expr)
    requires e.Extend? || e.Select? || e.Unary? || e.Reduce?
    requires WellFormed(e)
    ensures SameShape(Fold(e), e)
    decreases e, 0
  {
    FoldShape(e.x);
    if e.Select? {
      FoldShape(e.base);
    }
  }

  lemma {:induction false} FoldAllShape(es: seq<Expr>)
    requires AllWellFormed(es)
    ensures AllWellFormed(FoldAll(es)) && WidthSum(FoldAll(es)) == WidthSum(es)
    ensures AllConst(FoldAll(es)) ==> |Cat(ConstVecs(FoldAll(es)))| == WidthSum(es)
    decreases es, 0
  {
    if es != [] {
      FoldShape(es[0]);
      FoldAllShape(es[1..]);
      assert FoldAll(es)[1..] == FoldAll(es[1..]);
    }
  }

  /** f may stand for e in this environment. */
  ghost predicate Replaces(f: Expr, e: Expr, env: Env) {
    WellTyped(f, env) && Eval(f, env) == Eval(e, env)
  }

  lemma FoldSoundLeaf(e: Expr, env: Env)
    requires e.Const? || e.Signal?
    requires WellTyped(e, env)
    ensures Replaces(Fold(e), e, env)
  {
  }

  lemma FoldConcatSound(ps: seq<Expr>, n: nat, s: bool, two: bool, env: Env)
    requires WellFormed(Concat(ps, n, s, two)) && AllWellTyped(ps, env)
    requires AllConst(ps) ==> ConstVecs(ps) == EvalAll(ps, env)
    ensures Replaces(FoldConcat(ps, n, s, two), Concat(ps, n, s, two), env)
  {
    EvalAllWidth(ps, env);
  }

  lemma FoldExtendSound(x: Expr, w: nat, s: bool, env: Env)
    requires WellFormed(Extend(x, w, s)) && WellTyped(x, env)
    ensures Replaces(FoldExtend(x, w, s), Extend(x, w, s), env)
  {
  }

  lemma FoldSelectSound(x: Expr, b: Expr, w: nat, s: bool, env: Env)
    requires WellFormed(Select(x, b, w, s)) && WellTyped(x, env) && WellTyped(b, env)
    requires x.Const? && b.Const? ==> ExactPosition(b.v)
    ensures Replaces(FoldSelect(x, b, w, s), Select(x, b, w, s), env)
  {
  }

  lemma FoldUnarySound(op: UnaryOp, x: Expr, w: nat, s: bool, env: Env)
    requires WellFormed(Unary(op, x, w, s)) && WellTyped(x, env)
    ensures Replaces(FoldUnary(op, x, w, s), Unary(op, x, w, s), env)
  {
  }

  lemma FoldReduceSound(op: ReduceOp, x: Expr, env: Env)
    requires WellFormed(Reduce(op, x)) && WellTyped(x, env)
    ensures Replaces(FoldReduce(op, x), Reduce(op, x), env)
  {
  }

  lemma FoldAddSound(op: AddOp, l: Expr, r: Expr, w: nat, s: bool, env: Env)
    requires WellFormed(Add(op, l, r, w, s)) && WellTyped(l, env) && WellTyped(r, env)
    ensures Replaces(FoldAdd(op, l, r, w, s), Add(op, l, r, w, s), env)
  {
    if l.Add? && l.r.Const? && r.Const? {
      assert Eval(l, env) == AddVec(l.addOp, Eval(l.l, env), l.r.v.bits, w);
      Reassociate(op, l.addOp, Eval(l.l, env), l.r.v.bits, r.v.bits, w);
    }
  }

  lemma FoldMultSound(l: Expr, r: Expr, w: nat, s: bool, env: Env)
    requires WellFormed(Mult(l, r, w, s)) && WellTyped(l, env) && WellTyped(r, env)
    ensures Replaces(FoldMult(l, r, w, s), Mult(l, r, w, s), env)
  {
  }

  lemma FoldDivSound(mod: bool, l: Expr, r: Expr, w: nat, s: bool, env: Env)
    requires WellFormed(Div(mod, l, r, w, s)) && WellTyped(l, env) && WellTyped(r, env)
    ensures Replaces(FoldDiv(mod, l, r, w, s), Div(mod, l, r, w, s), env)
  {
  }

  lemma FoldBitwiseSound(op: BitsOp, l: Expr, r: Expr, w: nat, s: bool, env: Env)
    requires WellFormed(Bits(op, l, r, w, s)) && WellTyped(l, env) && WellTyped(r, env)
    ensures Replaces(FoldBits(op, l, r, w, s), Bits(op, l, r, w, s), env)
  {
  }

  lemma ShiftedOut(op: ShiftOp, x: Vec, m: nat, n: nat, s: bool, w: nat)
    requires |x| == w <= m && w <= n
    ensures ShiftVec(op, x, m, s, w) == ShiftVec(op, x, n, s, w)
  {
    var a, b := ShiftVec(op, x, m, s, w), ShiftVec(op, x, n, s, w);
    var pad := if op == ShArith then SignPad(x, s) else V0;
    forall i | 0 <= i < w
      ensures a[i] == b[i]
    {
      if op == ShLeft {
        assert a[i] == V0 == b[i];
      } else {
        assert a[i] == At(x, i + m, pad) && b[i] == At(x, i + n, pad);
      }
    }
  }

  /** A shift amount beyond an unsigned saturates, and shifts everything out all the same. */
  lemma FoldShiftSound(op: ShiftOp, l: Expr, r: Expr, w: nat, s: bool, env: Env)
    requires WellFormed(Shift(op, l, r, w, s)) && WellTyped(l, env) && WellTyped(r, env)
    ensures Replaces(FoldShift(op, l, r, w, s), Shift(op, l, r, w, s), env)
  {
    EvalWidth(l, env);
    if l.Const? && r.Const? && Defined(r.v.bits) {
      var x := l.v.bits;
      ValueRange(r.v.bits);
      var n := Value(r.v.bits, V0);
      if n > UINT_MAX {
        ShiftedOut(op, x, UINT_MAX, n, s, w);
      }
    }
  }

  lemma FoldCompSound(op: CompOp, l: Expr, r: Expr, env: Env)
    requires WellFormed(Comp(op, l, r)) && WellTyped(l, env) && WellTyped(r, env)
    requires DecidedByRange(op, l, r) ==> Defined(Eval(l, env)) && Defined(Eval(r, env))
    ensures Replaces(FoldComp(op, l, r), Comp(op, l, r), env)
  {
    EvalWidth(l, env);
    EvalWidth(r, env);
    if op in {Lt, Le, Gt, Ge} && OrderConst(op, l, r).Some? {
      OrderConstSound(op, l, r, Eval(l, env), Eval(r, env));
    }
  }

  lemma FoldLogicSound(op: LogicOp, l: Expr, r: Expr, env: Env)
    requires WellFormed(Logic(op, l, r)) && WellTyped(l, env) && WellTyped(r, env)
    ensures Replaces(FoldLogic(op, l, r), Logic(op, l, r), env)
  {
  }

  lemma FoldTernarySound(e: Expr, env: Env)
    requires e.Ternary? && WellFormed(e) && WellTyped(e, env)
    requires Replaces(Fold(e.cond), e.cond, env) && Replaces(Fold(e.t), e.t, env) && Replaces(Fold(e.f), e.f, env)
    ensures Replaces(Fold(e), e, env)
  {
    FoldShape(e.t);
    FoldShape(e.f);
  }

  lemma {:induction false} FoldAllSound(es: seq<Expr>, env: Env)
    requires AllWellFormed(es) && AllWellTyped(es, env) && AllSafe(es, env)
    ensures AllWellTyped(FoldAll(es), env)
    ensures EvalAll(FoldAll(es), env) == EvalAll(es, env)
    ensures AllConst(FoldAll(es)) ==> ConstVecs(FoldAll(es)) == EvalAll(es, env)
    decreases es, 0
  {
    if es != [] {
      FoldSound(es[0], env);
      FoldAllSound(es[1..], env);
      assert FoldAll(es)[1..] == FoldAll(es[1..]);
    }
  }

  /** Folding preserves meaning: for every tree, in every environment in which it is safe. */
  lemma {:induction false} FoldSound(e: Expr, env: Env)
    requires WellFormed(e) && WellTyped(e, env) && Safe(e, env)
    ensures Replaces(Fold(e), e, env)
    decreases e, 1
  {
    hide *;
    if e.Const? || e.Signal? {
      FoldSoundLeaf(e, env);
    } else if e.Add? || e.Mult? || e.Div? {
      FoldSoundArith(e, env);
    } else if e.Bits? || e.Shift? {
      FoldSoundBits(e, env);
    } else if e.Comp? || e.Logic? {
      FoldSoundTruth(e, env);
    } else if e.Ternary? {
      FoldSoundTernary(e, env);
    } else if e.Unary? || e.Reduce? {
      FoldSoundUnary(e, env);
    } else {
      FoldSoundStructure(e, env);
    }
  }

  lemma {:induction false} FoldSoundStructure(e: Expr, env: Env)
    requires e.Concat? || e.Extend? || e.Select?
    requires WellFormed(e) && WellTyped(e, env) && Safe(e, env)
    ensures Replaces(Fold(e), e, env)
    decreases e, 0
  {
    match e
    case Concat(ps, n, s, two) =>
      FoldAllSound(ps, env);
      FoldAllShape(ps);
      FoldConcatSound(FoldAll(ps), n, s, two, env);
    case Extend(x, w, s) =>
      FoldSound(x, env);
      FoldShape(x);
      FoldExtendSound(Fold(x), w, s, env);
    case Select(x, b, w, s) =>
      FoldSound(x, env);
      FoldSound(b, env);
      FoldShape(x);
      FoldShape(b);
      FoldSelectSound(Fold(x), Fold(b), w, s, env);
  }

  lemma {:induction false} FoldSoundUnary(e: Expr, env: Env)
    requires e.Unary? || e.Reduce?
    requires WellFormed(e) && WellTyped(e, env) && Safe(e, env)
    ensures Replaces(Fold(e), e, env)
    decreases e, 0
  {
    FoldSound(e.x, env);
    FoldShape(e.x);
    if e.Unary? {
      FoldUnarySound(e.unaryOp, Fold(e.x), e.wid, e.signed, env);
    } else {
      FoldReduceSound(e.reduceOp, Fold(e.x), env);
    }
  }

  lemma {:induction false} FoldSoundArith(e: Expr, env: Env)
    requires e.Add? || e.Mult? || e.Div?
    requires WellFormed(e) && WellTyped(e, env) && Safe(e, env)
    ensures Replaces(Fold(e), e, env)
    decreases e, 0
  {
    FoldSound(e.l, env);
    FoldSound(e.r, env);
    FoldShape(e.l);
    FoldShape(e.r);
    var fl, fr := Fold(e.l), Fold(e.r);
    match e
    case Add(op, _, _, w, s) => FoldAddSound(op, fl, fr, w, s, env);
    case Mult(_, _, w, s) => FoldMultSound(fl, fr, w, s, env);
    case Div(mod, _, _, w, s) => FoldDivSound(mod, fl, fr, w, s, env);
  }

  lemma {:induction false} FoldSoundBits(e: Expr, env: Env)
    requires e.Bits? || e.Shift?
    requires WellFormed(e) && WellTyped(e, env) && Safe(e, env)
    ensures Replaces(Fold(e), e, env)
    decreases e, 0
  {
    FoldSound(e.l, env);
    FoldSound(e.r, env);
    FoldShape(e.l);
    FoldShape(e.r);
    if e.Bits? {
      FoldBitwiseSound(e.bitsOp, Fold(e.l), Fold(e.r), e.wid, e.signed, env);
    } else {
      FoldShiftSound(e.shiftOp, Fold(e.l), Fold(e.r), e.wid, e.signed, env);
    }
  }

  lemma {:induction false} FoldSoundTruth(e: Expr, env: Env)
    requires e.Comp? || e.Logic?
    requires WellFormed(e) && WellTyped(e, env) && Safe(e, env)
    ensures Replaces(Fold(e), e, env)
    decreases e, 0
  {
    FoldSound(e.l, env);
    FoldSound(e.r, env);
    FoldShape(e.l);
    FoldShape(e.r);
    if e.Comp? {
      FoldCompSound(e.compOp, Fold(e.l), Fold(e.r), env);
    } else {
      FoldLogicSound(e.logicOp, Fold(e.l), Fold(e.r), env);
    }
  }

  lemma {:induction false} FoldSoundTernary(e: Expr, env: Env)
    requires e.Ternary? && WellFormed(e) && WellTyped(e, env) && Safe(e, env)
    ensures Replaces(Fold(e), e, env)
    decreases e, 0
  {
    FoldSound(e.cond, env);
    FoldSound(e.t, env);
    FoldSound(e.f, env);
    FoldTernarySound(e, env);
  }
}
