/** Where folding is exact: a sufficient condition that elaboration can check, and, for the
    two kinds of node where the folder may go wrong, the exact condition. */
module FoldExact {
  import opened FourState
  import opened TwosComplement
  import opened Verinum
  import opened NetExpr
  import opened Folding

  /** Every select addresses bits that exist, and two-state concatenations have two-state parts. */
  ghost predicate Bounded(e: Expr, env: Env)
    decreases e, 1
  {
    match e
    case Const(_) => true
    case Signal(_, _, _, _) => true
    case Add(_, l, r, _, _) => Bounded(l, env) && Bounded(r, env)
    case Bits(_, l, r, _, _) => Bounded(l, env) && Bounded(r, env)
    case Mult(l, r, _, _) => Bounded(l, env) && Bounded(r, env)
    case Div(_, l, r, _, _) => Bounded(l, env) && Bounded(r, env)
    case Comp(_, l, r) => Bounded(l, env) && Bounded(r, env)
    case Logic(_, l, r) => Bounded(l, env) && Bounded(r, env)
    case Shift(_, l, r, _, _) => Bounded(l, env) && Bounded(r, env)
    case Concat(ps, _, _, two) => AllBounded(ps, env) && (two ==> forall i :: 0 <= i < |ps| ==> TwoState(ps[i]))
    case Extend(x, _, _) => Bounded(x, env)
    case Select(x, b, w, _) =>
      && Bounded(x, env) && Bounded(b, env)
      && |Eval(x, env)| <= UINT_MAX
      && Defined(Eval(b, env))
      && 0 <= Num(Eval(b, env), Sign(b)) <= |Eval(x, env)| - w
    case Ternary(c, t, f, _, _) => Bounded(c, env) && Bounded(t, env) && Bounded(f, env)
    case Unary(_, x, _, _) => Bounded(x, env)
    case Reduce(_, x) => Bounded(x, env)
  }

  ghost predicate AllBounded(es: seq<Expr>, env: Env)
    decreases es, 0
  {
    es == [] || (Bounded(es[0], env) && AllBounded(es[1..], env))
  }

  /** A value typed two-state, before or after folding, holds no x or z. */
  ghost predicate Honest(e: Expr, env: Env) {
    TwoState(e) || TwoState(Fold(e)) ==> Defined(Eval(e, env))
  }

  lemma BoundedSafeLeaf(e: Expr, env: Env)
    requires e.Const? || e.Signal?
    requires WellTyped(e, env)
    ensures Safe(e, env) && Honest(e, env)
  {
  }

  lemma BoundedTernary(e: Expr, env: Env)
    requires e.Ternary? && WellFormed(e) && WellTyped(e, env) && Safe(e, env)
    requires Honest(e.cond, env) && Honest(e.t, env) && Honest(e.f, env)
    ensures Honest(e, env)
  {
    FoldSound(e.cond, env);
    FoldSound(e, env);
  }

  lemma {:induction false} ReplicateDefined(v: Vec, n: nat)
    requires Defined(v)
    ensures Defined(Replicate(v, n))
  {
    if n > 0 {
      ReplicateDefined(v, n - 1);
    }
  }

  lemma Pow2Of33()
    ensures Pow2(33) == 0x2_0000_0000
  {
    assert Pow2(8) == 256;
    Pow2Add(8, 8);
    Pow2Add(16, 16);
    assert Pow2(16) == 65536 && Pow2(32) == 0x1_0000_0000;
  }

  lemma BeyondLong(hi: int, sign: nat, p: nat)
    requires p > 0 && sign <= 1
    ensures hi == 0 - sign ==> p * hi == 0 - sign * p
    ensures hi >= 1 ==> p * hi >= p
    ensures hi <= -2 ==> p * hi <= -2 * p
  {
    if hi >= 1 {
      MulMonotone(p, 1, hi);
    }
    if hi <= -2 {
      MulMonotone(p, hi, -2);
    }
  }

  /** The bits beyond a long decide whether the whole number is within one. */
  lemma LongTail(v: Vec, pad: Bit)
    requires Defined(v) && |v| > LONG_BITS && Known(pad)
    ensures var low := Value(v[..LONG_BITS], pad);
            Value(v, pad) == low || Value(v, pad) >= Pow2(LONG_BITS) || Value(v, pad) < 0 - Pow2(LONG_BITS)
  {
    hide Pow2;
    var lo, hi := v[..LONG_BITS], v[LONG_BITS..];
    ValueSplit(v, LONG_BITS, pad);
    ValueRange(lo);
    ValuePadded(lo, pad);
    ValuePadded(hi, pad);
    ValueRange(hi);
    BeyondLong(Value(hi, pad), BitVal(pad), Pow2(LONG_BITS));
  }

  /** as_long is exact unless the value lies outside a long. */
  lemma AsLongExact(b: Num4)
    requires Defined(b.bits)
    ensures AsLong(b) != IntOf(b) ==> IntOf(b) >= Pow2(LONG_BITS) || IntOf(b) < 0 - Pow2(LONG_BITS)
  {
    if |b.bits| > LONG_BITS {
      LongTail(b.bits, SignBit(b));
    } else {
      assert b.bits[..|b.bits|] == b.bits;
    }
  }

  lemma PositionInLong(b: Num4, width: nat)
    requires Defined(b.bits) && 0 <= IntOf(b) <= width <= UINT_MAX
    ensures ExactPosition(b)
  {
    AsLongExact(b);
    Pow2Of33();
    Pow2Monotone(33, LONG_BITS);
  }

  lemma CompSafe(e: Expr, env: Env)
    requires e.Comp? && WellFormed(e) && WellTyped(e, env)
    requires Safe(e.l, env) && Safe(e.r, env) && Honest(e.l, env) && Honest(e.r, env)
    ensures Safe(e, env)
  {
    hide Width, Num, Largest;
    FoldSound(e.l, env);
    FoldSound(e.r, env);
  }

  lemma CompHonest(e: Expr, env: Env)
    requires e.Comp? && WellFormed(e) && WellTyped(e, env) && Safe(e, env)
    requires Honest(e.l, env) && Honest(e.r, env)
    ensures Honest(e, env)
  {
    hide MustBeBelow;
    FoldSound(e, env);
  }

  lemma {:induction false} AllBoundedSafe(es: seq<Expr>, env: Env)
    requires AllWellFormed(es) && AllWellTyped(es, env) && AllBounded(es, env)
    ensures AllSafe(es, env)
    ensures (forall i :: 0 <= i < |es| ==> TwoState(es[i])) ==> Defined(Cat(EvalAll(es, env)))
    decreases es, 0
  {
    if es != [] {
      BoundedSafe(es[0], env);
      AllBoundedSafe(es[1..], env);
      assert EvalAll(es, env)[1..] == EvalAll(es[1..], env);
      if forall i :: 0 <= i < |es| ==> TwoState(es[i]) {
        assert forall i :: 0 <= i < |es[1..]| ==> es[1..][i] == es[i + 1];
      }
    }
  }

  /** With every select in bounds, every tree is safe to fold. */
  lemma {:induction false} BoundedSafe(e: Expr, env: Env)
    requires WellFormed(e) && WellTyped(e, env) && Bounded(e, env)
    ensures Safe(e, env) && Honest(e, env)
    decreases e, 1
  {
    hide *;
    if e.Const? || e.Signal? {
      BoundedSafeLeaf(e, env);
    } else if e.Comp? {
      BoundedSafeComp(e, env);
    } else if e.Ternary? {
      BoundedSafeTernary(e, env);
    } else if e.Concat? {
      BoundedSafeConcat(e, env);
    } else if e.Select? {
      BoundedSafeSelect(e, env);
    } else if e.Extend? || e.Unary? || e.Reduce? {
      BoundedSafeStructure(e, env);
    } else {
      BoundedSafeBinary(e, e.l, e.r, env);
    }
  }

  lemma {:induction false} BoundedSafeTernary(e: Expr, env: Env)
    requires e.Ternary? && WellFormed(e) && WellTyped(e, env) && Bounded(e, env)
    ensures Safe(e, env) && Honest(e, env)
    decreases e, 0
  {
    BoundedSafe(e.cond, env);
    BoundedSafe(e.t, env);
    BoundedSafe(e.f, env);
    BoundedTernary(e, env);
  }

  lemma {:induction false} BoundedSafeConcat(e: Expr, env: Env)
    requires e.Concat? && WellFormed(e) && WellTyped(e, env) && Bounded(e, env)
    ensures Safe(e, env) && Honest(e, env)
    decreases e, 0
  {
    AllBoundedSafe(e.parms, env);
    if e.twoState {
      ReplicateDefined(Cat(EvalAll(e.parms, env)), e.repeat);
    }
    FoldSound(e, env);
  }

  lemma {:induction false} BoundedSafeSelect(e: Expr, env: Env)
    requires e.Select? && WellFormed(e) && WellTyped(e, env) && Bounded(e, env)
    ensures Safe(e, env) && Honest(e, env)
    decreases e, 0
  {
    BoundedSafe(e.x, env);
    BoundedSafe(e.base, env);
    FoldSound(e.base, env);
    FoldShape(e.base);
    if Fold(e.base).Const? {
      PositionInLong(Fold(e.base).v, |Eval(e.x, env)|);
    }
    FoldSound(e, env);
  }

  lemma {:induction false} BoundedSafeStructure(e: Expr, env: Env)
    requires e.Extend? || e.Unary? || e.Reduce?
    requires WellFormed(e) && WellTyped(e, env) && Bounded(e, env)
    ensures Safe(e, env) && Honest(e, env)
    decreases e, 0
  {
    BoundedSafe(e.x, env);
    FoldSound(e, env);
  }

  lemma {:induction false} BoundedSafeBinary(e: Expr, l: Expr, r: Expr, env: Env)
    requires e.Add? || e.Bits? || e.Mult? || e.Div? || e.Shift? || e.Logic?
    requires l == e.l && r == e.r
    requires WellFormed(e) && WellTyped(e, env) && Bounded(e, env)
    ensures Safe(e, env) && Honest(e, env)
    decreases e, 0
  {
    BoundedSafe(l, env);
    BoundedSafe(r, env);
    FoldSound(e, env);
  }

  lemma {:induction false} BoundedSafeComp(e: Expr, env: Env)
    requires e.Comp? && WellFormed(e) && WellTyped(e, env) && Bounded(e, env)
    ensures Safe(e, env) && Honest(e, env)
    decreases e, 0
  {
    hide Safe, Honest;
    BoundedSafe(e.l, env);
    BoundedSafe(e.r, env);
    CompSafe(e, env);
    CompHonest(e, env);
  }

  /** The main theorem in the form elaboration can use: no select out of bounds. */
  lemma FoldPreservesMeaning(e: Expr, env: Env)
    requires WellFormed(e) && WellTyped(e, env) && Bounded(e, env)
    ensures Eval(Fold(e), env) == Eval(e, env)
    ensures Width(Fold(e)) == Width(e) && Sign(Fold(e)) == Sign(e)
  {
    BoundedSafe(e, env);
    FoldSound(e, env);
    FoldShape(e);
  }

  // ----- select positions -----

  /** Every bit of the vector in the window is x; bits outside it are x by the rule for selects. */
  predicate AllX(v: Vec, p: int, w: nat) {
    forall i :: 0 <= i < |v| && p <= i < p + w ==> v[i] == VX
  }

  lemma EvalOfConst(v: Num4, env: Env)
    ensures Eval(Const(v), env) == v.bits && Sign(Const(v)) == v.hasSign
  {
  }

  lemma EvalOfSelect(x: Expr, b: Expr, w: nat, s: bool, env: Env)
    ensures Eval(Select(x, b, w, s), env) == SelectAt(Eval(x, env), Eval(b, env), Sign(b), w)
  {
    hide SelectAt, Sign;
  }

  lemma FoldedSelect(x: Num4, b: Num4, w: nat, s: bool)
    ensures FoldSelect(Const(x), Const(b), w, s) == Const(Num4(SelectVec(x.bits, AsLong(b), w), true, s))
  {
    hide SelectVec, AsLong;
  }

  lemma ConstSelectEval(x: Num4, b: Num4, w: nat, s: bool, env: Env)
    ensures Eval(FoldSelect(Const(x), Const(b), w, s), env) == SelectVec(x.bits, AsLong(b), w)
    ensures Eval(Select(Const(x), Const(b), w, s), env) == SelectAt(x.bits, b.bits, b.hasSign, w)
  {
    hide *;
    EvalOfConst(x, env);
    EvalOfConst(b, env);
    EvalOfSelect(Const(x), Const(b), w, s, env);
    FoldedSelect(x, b, w, s);
    EvalOfConst(Num4(SelectVec(x.bits, AsLong(b), w), true, s), env);
  }

  lemma FaithfulSelect(v: Vec, b: Num4, w: nat)
    requires ExactPosition(b)
    ensures SelectAt(v, b.bits, b.hasSign, w) == SelectVec(v, AsLong(b), w)
  {
    hide SelectVec;
  }

  lemma UnfaithfulMeansX(v: Vec, b: Num4, w: nat)
    requires |v| <= UINT_MAX && w <= UINT_MAX && !ExactPosition(b)
    ensures SelectAt(v, b.bits, b.hasSign, w) == Fill(VX, w)
  {
    if Defined(b.bits) {
      AsLongExact(b);
      Pow2Of33();
      Pow2Monotone(33, LONG_BITS);
    }
  }

  lemma SelectIsX(v: Vec, p: int, w: nat)
    ensures SelectVec(v, p, w) == Fill(VX, w) <==> AllX(v, p, w)
  {
    var picked := SelectVec(v, p, w);
    if picked == Fill(VX, w) {
      forall i | 0 <= i < |v| && p <= i < p + w
        ensures v[i] == VX
      {
        assert picked[i - p] == v[i];
      }
    }
  }

  /** A constant select of a constant is folded to its meaning exactly when its position is
      faithful to as_long, or the bits at the position read instead happen to be x. */
  lemma SelectFoldExact(x: Num4, b: Num4, w: nat, s: bool, env: Env)
    requires |x.bits| <= UINT_MAX && w <= UINT_MAX
    ensures Eval(FoldSelect(Const(x), Const(b), w, s), env) == Eval(Select(Const(x), Const(b), w, s), env)
            <==> ExactPosition(b) || AllX(x.bits, AsLong(b), w)
  {
    hide *;
    ConstSelectEval(x, b, w, s, env);
    if ExactPosition(b) {
      FaithfulSelect(x.bits, b, w);
    } else {
      UnfaithfulMeansX(x.bits, b, w);
      SelectIsX(x.bits, AsLong(b), w);
    }
  }

  /** A fact about the fold alone: an undefined constant position is read as 0, and bit 0 is returned
      where x is meant. A constant undefined index of a parameter is answered x before a select is
      built (qflow-org/iverilog/elab_expr.cc:4069-4084, 4288-4301). */
  lemma UndefinedPositionReadsBitZero(env: Env)
    ensures var x, b := Num4([V1], true, false), Num4([VX], true, false);
            && Eval(FoldSelect(Const(x), Const(b), 1, false), env) == [V1]
            && Eval(Select(Const(x), Const(b), 1, false), env) == [VX]
  {
    var b := Num4([VX], true, false);
    assert !Known(b.bits[0]);
    assert !Defined(b.bits);
  }

  // ----- range decisions -----

  /** A comparison decided from an operand's range is right exactly when that operand, in this
      environment, holds no x or z. */
  lemma RangeDecisionExact(op: CompOp, l: Expr, r: Expr, env: Env)
    requires WellFormed(Comp(op, l, r)) && WellTyped(l, env) && WellTyped(r, env)
    requires DecidedByRange(op, l, r)
    ensures Eval(FoldComp(op, l, r), env) == Eval(Comp(op, l, r), env)
            <==> Defined(Eval(l, env)) && Defined(Eval(r, env))
  {
    EvalWidth(l, env);
    EvalWidth(r, env);
    if Defined(Eval(l, env)) && Defined(Eval(r, env)) {
      OrderConstSound(op, l, r, Eval(l, env), Eval(r, env));
    }
  }

  /** One bit of a one-bit two-state vector, at a position of two bits, compared with 1. */
  function WildSelect(): Expr {
    Select(Signal(0, 1, false, true), Signal(1, 2, false, true), 1, false)
  }

  function WildCompare(): Expr {
    Comp(Le, WildSelect(), Const(OneBit(V1)))
  }

  /** The position is 2. */
  function WildEnv(): Env {
    id => if id == 0 then [V0] else [V0, V1]
  }

  lemma WildSelectIsX()
    ensures WellTyped(WildCompare(), WildEnv()) && Eval(WildSelect(), WildEnv()) == [VX]
  {
    var b := [V0, V1];
    assert b[1..] == [V1] && [V1][1..] == [];
    assert Value([V1], V0) == 1;
    assert Num(b, false) == 2;
    assert SelectVec([V0], 2, 1) == [VX];
  }

  lemma WildCompareIsX()
    ensures Eval(WildCompare(), WildEnv()) == [VX]
  {
    hide WildSelect, WildEnv;
    WildSelectIsX();
    assert !Defined([VX]) by { assert !Known([VX][0]); }
  }

  lemma WildCompareFolds()
    ensures WellFormed(WildCompare()) && Fold(WildCompare()) == Const(OneBit(V1))
  {
    var sel, one := WildSelect(), Const(OneBit(V1));
    assert Fold(sel) == sel && Largest(1, false) == [V1];
    assert DecidedByRange(Le, sel, one);
  }

  lemma OneBitBits(b: Bit)
    ensures OneBit(b).bits == [b]
  {
  }

  /** A variable select of a two-state vector is typed two-state, yet is x out of range by section
      5.2.1 of IEEE 1364-2005, which knows no two-state vectors and is followed here for every
      select. Section 11.5.1 of IEEE 1800-2012 gives 0 there, and then the decision is right. */
  lemma RangeDecisionOnWildSelect()
    ensures WellFormed(WildCompare()) && WellTyped(WildCompare(), WildEnv())
    ensures Eval(WildCompare(), WildEnv()) == [VX] && Eval(Fold(WildCompare()), WildEnv()) == [V1]
  {
    hide *;
    WildSelectIsX();
    WildCompareIsX();
    WildCompareFolds();
    EvalOfConst(OneBit(V1), WildEnv());
    OneBitBits(V1);
  }
}
