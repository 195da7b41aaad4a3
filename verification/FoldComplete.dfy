/** What the folder folds: exactly which trees become constants, and what the sums that do not
    become constants look like afterwards (qflow-org/iverilog/eval_tree.cc:92-1600). */
module FoldComplete {
  import opened FourState
  import opened TwosComplement
  import opened Verinum
  import opened NetExpr
  import opened Folding
  import OperatorMeaning

  // ----- range decisions -----

  /** The parts whose type decides that of e: a type is passed on by comparisons, extensions, selects,
      conditionals, unary operators and reductions. */
  function Carriers(e: Expr): seq<Expr> {
    match e
    case Comp(op, l, r) => if op == CaseEq || op == CaseNe then [e] else Carriers(l) + Carriers(r)
    case Extend(x, _, _) => Carriers(x)
    case Select(x, _, _, _) => Carriers(x)
    case Ternary(c, t, f, _, _) => Carriers(c) + Carriers(t) + Carriers(f)
    case Unary(_, x, _, _) => Carriers(x)
    case Reduce(_, x) => Carriers(x)
    case _ => [e]
  }

  predicate TwoStateSource(x: Expr) {
    || (x.Const? && |x.v.bits| > 0 && Defined(x.v.bits))
    || (x.Signal? && x.twoState) || (x.Concat? && x.twoState) || x.Comp?
  }

  lemma CarriesItself(e: Expr)
    requires Carriers(e) == [e]
    ensures e in Carriers(e) && forall x :: x in Carriers(e) ==> x == e
  {
  }

  /** A tree is typed two-state when all of them are known constants, two-state signals or
      concatenations, or case comparisons; arithmetic is four-state, whatever its operands. */
  lemma {:induction false} TwoStateByCarriers(e: Expr)
    ensures TwoState(e)
            <==> forall x :: x in Carriers(e) ==> TwoStateSource(x)
  {
    match e
    case Comp(op, l, r) =>
      if op == CaseEq || op == CaseNe {
        CarriesItself(e);
      } else {
        TwoStateByCarriers(l);
        TwoStateByCarriers(r);
      }
    case Extend(x, _, _) => TwoStateByCarriers(x);
    case Select(x, _, _, _) => TwoStateByCarriers(x);
    case Ternary(c, t, f, _, _) =>
      TwoStateByCarriers(c);
      TwoStateByCarriers(t);
      TwoStateByCarriers(f);
    case Unary(_, x, _, _) => TwoStateByCarriers(x);
    case Reduce(_, x) => TwoStateByCarriers(x);
    case _ => CarriesItself(e);
  }

  lemma LargestIsReached(w: nat, s: bool)
    requires w > 0
    ensures Defined(Largest(w, s))
  {
  }

  predicate Meets(v: Vec, c: Num4, s: bool, orEqual: bool) {
    if orEqual then Num(v, s) <= Num(c.bits, s) else Num(v, s) < Num(c.bits, s)
  }

  ghost predicate Always(e: Expr, c: Num4, orEqual: bool) {
    TwoState(e) && forall v: Vec :: |v| == Width(e) && Defined(v) ==> Meets(v, c, Sign(e) && c.hasSign, orEqual)
  }

  /** A bound decides a comparison exactly when the operand is typed two-state and every value that
      it may then have meets the bound. */
  lemma RangeMeaning(e: Expr, c: Num4, orEqual: bool)
    requires Width(e) > 0
    ensures MustBeBelow(e, c, orEqual) <==> Always(e, c, orEqual)
  {
    var w, s := Width(e), Sign(e) && c.hasSign;
    LargestIsReached(w, s);
    forall v: Vec | |v| == w && Defined(v)
      ensures Num(v, s) <= Num(Largest(w, s), s)
    {
      AtMostLargest(v, s);
    }
    if Always(e, c, orEqual) {
      assert Meets(Largest(w, s), c, s, orEqual);
    }
  }

  // ----- which trees fold -----

  /** What is left of an order comparison against the bound c: nothing when the bound holds x or z,
      when the other operand folds too, or when its range decides. */
  ghost predicate BoundFolds(bound: Expr, other: Expr, otherFolds: bool, orEqual: bool) {
    bound.Const? && (!Defined(bound.v.bits) || otherFolds || Always(other, bound.v, orEqual))
  }

  /** A condition with a 1 needs its first branch, one of zeros its second, and any other both. */
  predicate Picks(c: Expr, t: bool, f: bool) {
    c.Const? &&
    if V1 in c.v.bits then t
    else if forall i :: 0 <= i < |c.v.bits| ==> c.v.bits[i] == V0 then f
    else t && f
  }

  /** The trees that fold. An order comparison is bounded on the right by < and <=, and on the left by
      > and >=; a known condition needs only the branch that it picks. */
  ghost predicate Folds(e: Expr)
    decreases e, 1
  {
    match e
    case Const(_) => true
    case Signal(_, _, _, _) => false
    case Add(_, l, r, _, _) => Folds(l) && Folds(r)
    case Bits(op, l, r, _, _) => op != BitNand && op != BitNor && Folds(l) && Folds(r)
    case Mult(l, r, _, _) => Folds(l) && Folds(r)
    case Div(_, l, r, _, _) => Folds(l) && Folds(r)
    case Comp(op, l, r) =>
      if op == Lt || op == Le then Folds(r) && BoundFolds(Fold(r), Fold(l), Folds(l), op == Le)
      else if op == Gt || op == Ge then Folds(l) && BoundFolds(Fold(l), Fold(r), Folds(r), op == Ge)
      else Folds(l) && Folds(r)
    case Logic(_, l, r) => Folds(l) && Folds(r)
    case Shift(_, l, r, _, _) => Folds(l) && Folds(r)
    case Concat(ps, _, _, _) => AllFold(ps)
    case Extend(x, _, _) => Folds(x)
    case Select(x, b, _, _) => Folds(x) && Folds(b)
    case Ternary(c, t, f, _, _) => Folds(c) && Picks(Fold(c), Folds(t), Folds(f))
    case Unary(_, x, _, _) => Folds(x)
    case Reduce(_, x) => Folds(x)
  }

  ghost predicate AllFold(es: seq<Expr>)
    decreases es, 0
  {
    es == [] || (Folds(es[0]) && AllFold(es[1..]))
  }

  lemma PickedFolds(c: Expr, t: Expr, f: Expr, foldedT: Expr, foldedF: Expr, w: nat, s: bool)
    ensures PickedBranch(c, t, f, foldedT, foldedF, w, s).Const? <==> Picks(c, foldedT.Const?, foldedF.Const?)
  {
    hide Logical;
    if c.Const? {
      OperatorMeaning.TruthMeaning(c.v.bits);
    }
  }

  lemma ComparisonFolds(op: CompOp, l: Expr, r: Expr)
    requires Width(l) == Width(r) > 0
    ensures FoldComp(op, l, r).Const?
            <==> if op == Lt || op == Le then BoundFolds(r, l, l.Const?, op == Le)
                 else if op == Gt || op == Ge then BoundFolds(l, r, r.Const?, op == Ge)
                 else l.Const? && r.Const?
  {
    hide Num, Largest, TwoState, CompBit, OrderBit, Always, MustBeBelow;
    if op in {Lt, Le} && r.Const? {
      RangeMeaning(l, r.v, op == Le);
    }
    if op in {Gt, Ge} && l.Const? {
      RangeMeaning(r, l.v, op == Ge);
    }
  }

  lemma FoldsLeaf(e: Expr)
    requires e.Const? || e.Signal?
    ensures Fold(e).Const? <==> Folds(e)
  {
  }

  lemma BoundIsConst(bound: Expr, other: Expr, otherFolds: bool, orEqual: bool)
    ensures BoundFolds(bound, other, otherFolds, orEqual) ==> bound.Const?
  {
  }

  lemma {:induction false} AllFoldExactly(es: seq<Expr>)
    requires AllWellFormed(es)
    ensures AllConst(FoldAll(es)) <==> AllFold(es)
    decreases es, 0
  {
    if es != [] {
      FoldsExactly(es[0]);
      AllFoldExactly(es[1..]);
      assert FoldAll(es)[0] == Fold(es[0]);
      assert FoldAll(es)[1..] == FoldAll(es[1..]);
      if AllConst(FoldAll(es)) {
        assert FoldAll(es)[0].Const?;
        assert forall i :: 0 <= i < |es[1..]| ==> FoldAll(es[1..])[i] == FoldAll(es)[i + 1];
      }
    }
  }

  /** A tree becomes a constant exactly when it is one of these. */
  lemma {:induction false} FoldsExactly(e: Expr)
    requires WellFormed(e)
    ensures Fold(e).Const? <==> Folds(e)
    decreases e, 1
  {
    hide *;
    if e.Const? || e.Signal? {
      FoldsLeaf(e);
    } else if e.Comp? {
      FoldsComp(e);
    } else if e.Ternary? {
      FoldsTernary(e);
    } else if e.Concat? {
      FoldsConcat(e);
    } else if e.Extend? || e.Select? || e.Unary? || e.Reduce? {
      FoldsUnary(e);
    } else {
      FoldsBinary(e);
    }
  }

  lemma {:induction false} FoldsBinary(e: Expr)
    requires e.Add? || e.Bits? || e.Mult? || e.Div? || e.Logic? || e.Shift?
    requires WellFormed(e)
    ensures Fold(e).Const? <==> Folds(e)
    decreases e, 0
  {
    FoldsExactly(e.l);
    FoldsExactly(e.r);
  }

  lemma {:induction false} FoldsComp(e: Expr)
    requires e.Comp? && WellFormed(e)
    ensures Fold(e).Const? <==> Folds(e)
    decreases e, 0
  {
    hide FoldComp, BoundFolds;
    FoldsExactly(e.l);
    FoldsExactly(e.r);
    FoldShape(e.l);
    FoldShape(e.r);
    ComparisonFolds(e.compOp, Fold(e.l), Fold(e.r));
    BoundIsConst(Fold(e.l), Fold(e.r), Folds(e.r), e.compOp == Ge);
    BoundIsConst(Fold(e.r), Fold(e.l), Folds(e.l), e.compOp == Le);
  }

  lemma {:induction false} FoldsTernary(e: Expr)
    requires e.Ternary? && WellFormed(e)
    ensures Fold(e).Const? <==> Folds(e)
    decreases e, 0
  {
    hide PickedBranch;
    FoldsExactly(e.cond);
    FoldsExactly(e.t);
    FoldsExactly(e.f);
    PickedFolds(Fold(e.cond), e.t, e.f, Fold(e.t), Fold(e.f), e.wid, e.signed);
  }

  lemma {:induction false} FoldsConcat(e: Expr)
    requires e.Concat? && WellFormed(e)
    ensures Fold(e).Const? <==> Folds(e)
    decreases e, 0
  {
    hide AllConst;
    AllFoldExactly(e.parms);
  }

  lemma {:induction false} FoldsUnary(e: Expr)
    requires e.Extend? || e.Select? || e.Unary? || e.Reduce?
    requires WellFormed(e)
    ensures Fold(e).Const? <==> Folds(e)
    decreases e, 0
  {
    FoldsExactly(e.x);
    if e.Select? {
      FoldsExactly(e.base);
    }
  }

  /** No signal anywhere, and no nand or nor, which the folder leaves alone. */
  predicate Closed(e: Expr)
    decreases e, 1
  {
    match e
    case Const(_) => true
    case Signal(_, _, _, _) => false
    case Add(_, l, r, _, _) => Closed(l) && Closed(r)
    case Bits(op, l, r, _, _) => op != BitNand && op != BitNor && Closed(l) && Closed(r)
    case Mult(l, r, _, _) => Closed(l) && Closed(r)
    case Div(_, l, r, _, _) => Closed(l) && Closed(r)
    case Comp(_, l, r) => Closed(l) && Closed(r)
    case Logic(_, l, r) => Closed(l) && Closed(r)
    case Shift(_, l, r, _, _) => Closed(l) && Closed(r)
    case Concat(ps, _, _, _) => AllClosed(ps)
    case Extend(x, _, _) => Closed(x)
    case Select(x, b, _, _) => Closed(x) && Closed(b)
    case Ternary(c, t, f, _, _) => Closed(c) && Closed(t) && Closed(f)
    case Unary(_, x, _, _) => Closed(x)
    case Reduce(_, x) => Closed(x)
  }

  predicate AllClosed(es: seq<Expr>)
    decreases es, 0
  {
    es == [] || (Closed(es[0]) && AllClosed(es[1..]))
  }

  lemma ClosedLeafFolds(e: Expr)
    requires e.Const? || e.Signal?
    requires Closed(e)
    ensures Folds(e)
  {
  }

  lemma {:induction false} ClosedFolds(e: Expr)
    requires WellFormed(e) && Closed(e)
    ensures Folds(e)
    decreases e, 1
  {
    hide *;
    if e.Const? || e.Signal? {
      ClosedLeafFolds(e);
    } else if e.Comp? {
      ClosedCompFolds(e);
    } else if e.Ternary? {
      ClosedTernaryFolds(e);
    } else if e.Concat? {
      ClosedConcatFolds(e);
    } else if e.Extend? || e.Select? || e.Unary? || e.Reduce? {
      ClosedUnaryFolds(e);
    } else {
      ClosedBinaryFolds(e);
    }
  }

  lemma {:induction false} ClosedBinaryFolds(e: Expr)
    requires e.Add? || e.Bits? || e.Mult? || e.Div? || e.Logic? || e.Shift?
    requires WellFormed(e) && Closed(e)
    ensures Folds(e)
    decreases e, 0
  {
    ClosedFolds(e.l);
    ClosedFolds(e.r);
  }

  lemma {:induction false} ClosedUnaryFolds(e: Expr)
    requires e.Extend? || e.Select? || e.Unary? || e.Reduce?
    requires WellFormed(e) && Closed(e)
    ensures Folds(e)
    decreases e, 0
  {
    ClosedFolds(e.x);
    if e.Select? {
      ClosedFolds(e.base);
    }
  }

  lemma {:induction false} ClosedConcatFolds(e: Expr)
    requires e.Concat? && WellFormed(e) && Closed(e)
    ensures Folds(e)
    decreases e, 0
  {
    AllClosedFold(e.parms);
  }

  lemma {:induction false} ClosedCompFolds(e: Expr)
    requires e.Comp? && WellFormed(e) && Closed(e)
    ensures Folds(e)
    decreases e, 0
  {
    hide Fold;
    ClosedFolds(e.l);
    ClosedFolds(e.r);
    FoldsExactly(e.l);
    FoldsExactly(e.r);
  }

  lemma {:induction false} ClosedTernaryFolds(e: Expr)
    requires e.Ternary? && WellFormed(e) && Closed(e)
    ensures Folds(e)
    decreases e, 0
  {
    hide Fold;
    ClosedFolds(e.cond);
    ClosedFolds(e.t);
    ClosedFolds(e.f);
    FoldsExactly(e.cond);
  }

  lemma {:induction false} AllClosedFold(es: seq<Expr>)
    requires AllWellFormed(es) && AllClosed(es)
    ensures AllFold(es)
    decreases es, 0
  {
    if es != [] {
      ClosedFolds(es[0]);
      AllClosedFold(es[1..]);
    }
  }

  /** So every such tree becomes a constant. */
  lemma ClosedBecomesConst(e: Expr)
    requires WellFormed(e) && Closed(e)
    ensures Fold(e).Const?
  {
    ClosedFolds(e);
    FoldsExactly(e);
  }

  lemma ConstIs(e: Expr, env: Env)
    requires e.Const?
    ensures Eval(e, env) == e.v.bits && Width(e) == |e.v.bits| && Sign(e) == e.v.hasSign
  {
  }

  /** A tree that folds becomes the constant of its value, with the width and the sign of the tree. */
  lemma FoldComputes(e: Expr, env: Env)
    requires WellFormed(e) && WellTyped(e, env) && Safe(e, env) && Folds(e)
    ensures Fold(e).Const? && Fold(e).v.bits == Eval(e, env)
    ensures |Fold(e).v.bits| == Width(e) && Fold(e).v.hasSign == Sign(e)
  {
    hide Fold, Eval, Folds, Safe, WellTyped;
    FoldsExactly(e);
    FoldSound(e, env);
    FoldShape(e);
    ConstIs(Fold(e), env);
  }

  /** A folded ?: whose condition became a constant is its picked branch, folded, whatever that is;
      under any other condition its branches are left as they were. */
  lemma FoldedTernary(c: Expr, t: Expr, f: Expr, w: nat, s: bool)
    requires WellFormed(c)
    ensures var e := Fold(Ternary(c, t, f, w, s));
            && (!Folds(c) ==> e == Ternary(Fold(c), t, f, w, s))
            && (Folds(c) ==>
                  && Fold(c).Const?
                  && var bits := Fold(c).v.bits;
                  && (V1 in bits ==> e == Fold(t))
                  && ((forall i :: 0 <= i < |bits| ==> bits[i] == V0) ==> e == Fold(f)))
  {
    hide Logical, FoldBlend;
    FoldsExactly(c);
    if Fold(c).Const? {
      OperatorMeaning.TruthMeaning(Fold(c).v.bits);
    }
  }

  // ----- two constants -----

  function SomeEnv(): Env {
    _ => []
  }

  lemma ConstantsSafe(e: Expr, l: Num4, r: Num4)
    requires e.Div? || (e.Comp? && e.compOp in {Lt, Le, Gt, Ge})
    requires e.l == Const(l) && e.r == Const(r) && Defined(l.bits) && Defined(r.bits)
    ensures Closed(e) && WellTyped(e, SomeEnv()) && Safe(e, SomeEnv())
  {
    hide DecidedByRange, Defined;
    assert Fold(Const(l)) == Const(l) && Fold(Const(r)) == Const(r);
    assert Safe(Const(l), SomeEnv()) && Safe(Const(r), SomeEnv());
    assert Eval(e.l, SomeEnv()) == l.bits && Eval(e.r, SomeEnv()) == r.bits;
  }

  /** A node of two constants becomes the constant of its value. */
  lemma ConstantsFold(e: Expr, l: Num4, r: Num4)
    requires e.Div? || (e.Comp? && e.compOp in {Lt, Le, Gt, Ge})
    requires e.l == Const(l) && e.r == Const(r) && WellFormed(e) && Defined(l.bits) && Defined(r.bits)
    ensures Fold(e).Const? && Fold(e).v.bits == Eval(e, SomeEnv()) && Fold(e).v.hasSign == Sign(e)
    ensures Eval(e.l, SomeEnv()) == l.bits && Eval(e.r, SomeEnv()) == r.bits
    ensures WellTyped(e.l, SomeEnv()) && WellTyped(e.r, SomeEnv())
  {
    hide Fold, Safe, Closed, Folds, Defined, WellFormed;
    ConstantsSafe(e, l, r);
    ClosedFolds(e);
    FoldComputes(e, SomeEnv());
  }

  /** / and % of two constants, on integers: the dividend is the quotient times the divisor plus a
      remainder that is smaller than the divisor and zero or of the dividend's sign; only the most
      negative number over -1 overflows. */
  lemma FoldedDivision(l: Num4, r: Num4, w: nat, s: bool)
    requires WellFormed(Div(false, Const(l), Const(r), w, s))
    requires Defined(l.bits) && Defined(r.bits) && IntOf(r) != 0
    ensures var quotient, rest := Fold(Div(false, Const(l), Const(r), w, s)), Fold(Div(true, Const(l), Const(r), w, s));
            && quotient.Const? && rest.Const?
            && var a, b, q, m := IntOf(l), IntOf(r), IntOf(quotient.v), IntOf(rest.v);
               var overflows := s && b == -1 && a == 0 - Pow2(w - 1);
               && (0 - b < m < b || b < m < 0 - b) && (m == 0 || (m < 0) == (a < 0))
               && (a == q * b + m <==> !overflows)
               && (overflows ==> q == a && m == 0)
  {
    hide Fold, Eval, Num;
    var quotient, rest := Div(false, Const(l), Const(r), w, s), Div(true, Const(l), Const(r), w, s);
    ConstantsFold(quotient, l, r);
    ConstantsFold(rest, l, r);
    OperatorMeaning.DivisionMeaning(Const(l), Const(r), w, s, SomeEnv());
  }

  predicate IsBit(e: Expr, one: bool) {
    e.Const? && e.v.bits == if one then [V1] else [V0]
  }

  /** The four order comparisons of two constants, on integers. */
  lemma FoldedOrder(l: Num4, r: Num4)
    requires |l.bits| == |r.bits| > 0 && l.hasSign == r.hasSign && Defined(l.bits) && Defined(r.bits)
    ensures IsBit(Fold(Comp(Lt, Const(l), Const(r))), IntOf(l) < IntOf(r))
    ensures IsBit(Fold(Comp(Le, Const(l), Const(r))), IntOf(l) <= IntOf(r))
    ensures IsBit(Fold(Comp(Gt, Const(l), Const(r))), IntOf(l) > IntOf(r))
    ensures IsBit(Fold(Comp(Ge, Const(l), Const(r))), IntOf(l) >= IntOf(r))
  {
    hide Fold, Eval, Num;
    ConstantsFold(Comp(Lt, Const(l), Const(r)), l, r);
    ConstantsFold(Comp(Le, Const(l), Const(r)), l, r);
    ConstantsFold(Comp(Gt, Const(l), Const(r)), l, r);
    ConstantsFold(Comp(Ge, Const(l), Const(r)), l, r);
    OperatorMeaning.OrderMeaning(Const(l), Const(r), SomeEnv());
  }

  // ----- sums -----

  /** No sum or difference with a constant on its right has another such on its left, wherever the
      folder has been: everywhere but in the branches of a ?: that it left alone. */
  predicate SumsCombined(e: Expr)
    decreases e, 1
  {
    match e
    case Const(_) => true
    case Signal(_, _, _, _) => true
    case Add(_, l, r, _, _) => SumsCombined(l) && SumsCombined(r) && !(r.Const? && l.Add? && l.r.Const?)
    case Bits(_, l, r, _, _) => SumsCombined(l) && SumsCombined(r)
    case Mult(l, r, _, _) => SumsCombined(l) && SumsCombined(r)
    case Div(_, l, r, _, _) => SumsCombined(l) && SumsCombined(r)
    case Comp(_, l, r) => SumsCombined(l) && SumsCombined(r)
    case Logic(_, l, r) => SumsCombined(l) && SumsCombined(r)
    case Shift(_, l, r, _, _) => SumsCombined(l) && SumsCombined(r)
    case Concat(ps, _, _, _) => AllSumsCombined(ps)
    case Extend(x, _, _) => SumsCombined(x)
    case Select(x, b, _, _) => SumsCombined(x) && SumsCombined(b)
    case Ternary(c, _, _, _, _) => SumsCombined(c)
    case Unary(_, x, _, _) => SumsCombined(x)
    case Reduce(_, x) => SumsCombined(x)
  }

  predicate AllSumsCombined(es: seq<Expr>)
    decreases es, 0
  {
    es == [] || (SumsCombined(es[0]) && AllSumsCombined(es[1..]))
  }

  /** After folding, constants at the end of a chain of sums and differences are one constant. */
  lemma {:induction false} FoldCombinesSums(e: Expr)
    ensures SumsCombined(Fold(e))
    decreases e, 1
  {
    hide CompConst, MustBeBelow;
    match e
    case Const(_) =>
    case Signal(_, _, _, _) =>
    case Ternary(c, t, f, _, _) =>
      FoldCombinesSums(c);
      FoldCombinesSums(t);
      FoldCombinesSums(f);
    case Concat(ps, _, _, _) => FoldCombinesAllSums(ps);
    case Extend(x, _, _) => FoldCombinesSums(x);
    case Select(x, b, _, _) =>
      FoldCombinesSums(x);
      FoldCombinesSums(b);
    case Unary(_, x, _, _) => FoldCombinesSums(x);
    case Reduce(_, x) => FoldCombinesSums(x);
    case _ =>
      FoldCombinesSums(e.l);
      FoldCombinesSums(e.r);
  }

  lemma {:induction false} FoldCombinesAllSums(es: seq<Expr>)
    ensures AllSumsCombined(FoldAll(es))
    decreases es, 0
  {
    if es != [] {
      FoldCombinesSums(es[0]);
      FoldCombinesAllSums(es[1..]);
      assert FoldAll(es)[1..] == FoldAll(es[1..]);
    }
  }
}
