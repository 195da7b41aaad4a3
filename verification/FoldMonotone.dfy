/** Four-valued evaluation is monotone: making x and z bits known never changes a bit that was
    already known, so a bit that folding reported as 0 or 1 is final. */
module FoldMonotone {
  import opened FourState
  import opened TwosComplement
  import opened Verinum
  import opened NetExpr
  import opened Folding

  /** g is f with some x or z bits of its constants made known. */
  predicate Refines(f: Expr, g: Expr)
    decreases f, 1
  {
    match (f, g)
    case (Const(v), Const(u)) => VecBelow(v.bits, u.bits) && v.hasSign == u.hasSign
    case (Signal(_, _, _, _), _) => f == g
    case (Add(op, l, r, w, s), Add(op2, l2, r2, w2, s2)) =>
      op == op2 && w == w2 && s == s2 && Refines(l, l2) && Refines(r, r2)
    case (Bits(op, l, r, w, s), Bits(op2, l2, r2, w2, s2)) =>
      op == op2 && w == w2 && s == s2 && Refines(l, l2) && Refines(r, r2)
    case (Mult(l, r, w, s), Mult(l2, r2, w2, s2)) => w == w2 && s == s2 && Refines(l, l2) && Refines(r, r2)
    case (Div(mod, l, r, w, s), Div(mod2, l2, r2, w2, s2)) =>
      mod == mod2 && w == w2 && s == s2 && Refines(l, l2) && Refines(r, r2)
    case (Comp(op, l, r), Comp(op2, l2, r2)) => op == op2 && Refines(l, l2) && Refines(r, r2)
    case (Logic(op, l, r), Logic(op2, l2, r2)) => op == op2 && Refines(l, l2) && Refines(r, r2)
    case (Shift(op, l, r, w, s), Shift(op2, l2, r2, w2, s2)) =>
      op == op2 && w == w2 && s == s2 && Refines(l, l2) && Refines(r, r2)
    case (Concat(ps, n, s, t), Concat(qs, n2, s2, t2)) => n == n2 && s == s2 && t == t2 && AllRefine(ps, qs)
    case (Extend(x, w, s), Extend(y, w2, s2)) => w == w2 && s == s2 && Refines(x, y)
    case (Select(x, b, w, s), Select(y, c, w2, s2)) => w == w2 && s == s2 && Refines(x, y) && Refines(b, c)
    case (Ternary(c, t, e, w, s), Ternary(c2, t2, e2, w2, s2)) =>
      w == w2 && s == s2 && Refines(c, c2) && Refines(t, t2) && Refines(e, e2)
    case (Unary(op, x, w, s), Unary(op2, y, w2, s2)) => op == op2 && w == w2 && s == s2 && Refines(x, y)
    case (Reduce(op, x), Reduce(op2, y)) => op == op2 && Refines(x, y)
    case _ => false
  }

  predicate AllRefine(fs: seq<Expr>, gs: seq<Expr>)
    decreases fs, 0
  {
    |fs| == |gs| && (fs == [] || (Refines(fs[0], gs[0]) && AllRefine(fs[1..], gs[1..])))
  }

  /** No === or !== anywhere. */
  predicate Monotonic(e: Expr)
    decreases e, 1
  {
    match e
    case Const(_) => true
    case Signal(_, _, _, _) => true
    case Add(_, l, r, _, _) => Monotonic(l) && Monotonic(r)
    case Bits(_, l, r, _, _) => Monotonic(l) && Monotonic(r)
    case Mult(l, r, _, _) => Monotonic(l) && Monotonic(r)
    case Div(_, l, r, _, _) => Monotonic(l) && Monotonic(r)
    case Comp(op, l, r) => op != CaseEq && op != CaseNe && Monotonic(l) && Monotonic(r)
    case Logic(_, l, r) => Monotonic(l) && Monotonic(r)
    case Shift(_, l, r, _, _) => Monotonic(l) && Monotonic(r)
    case Concat(ps, _, _, _) => AllMonotonic(ps)
    case Extend(x, _, _) => Monotonic(x)
    case Select(x, b, _, _) => Monotonic(x) && Monotonic(b)
    case Ternary(c, t, f, _, _) => Monotonic(c) && Monotonic(t) && Monotonic(f)
    case Unary(_, x, _, _) => Monotonic(x)
    case Reduce(_, x) => Monotonic(x)
  }

  predicate AllMonotonic(es: seq<Expr>)
    decreases es, 0
  {
    es == [] || (Monotonic(es[0]) && AllMonotonic(es[1..]))
  }

  ghost predicate EnvBelow(a: Env, b: Env) {
    forall id :: VecBelow(a(id), b(id))
  }

  // ----- one lemma per operator -----

  lemma BelowDefined(a: Vec, b: Vec)
    requires VecBelow(a, b) && Defined(a)
    ensures a == b
  {
  }

  lemma AddMonotone(op: AddOp, l: Vec, l2: Vec, r: Vec, r2: Vec, w: nat)
    requires VecBelow(l, l2) && VecBelow(r, r2)
    ensures VecBelow(AddVec(op, l, r, w), AddVec(op, l2, r2, w))
  {
    if Defined(l) && Defined(r) {
      BelowDefined(l, l2);
      BelowDefined(r, r2);
    }
  }

  lemma MultMonotone(l: Vec, l2: Vec, r: Vec, r2: Vec, w: nat)
    requires VecBelow(l, l2) && VecBelow(r, r2)
    ensures VecBelow(MultVec(l, r, w), MultVec(l2, r2, w))
  {
    if Defined(l) && Defined(r) {
      BelowDefined(l, l2);
      BelowDefined(r, r2);
    }
  }

  lemma DivMonotone(mod: bool, l: Vec, l2: Vec, r: Vec, r2: Vec, s: bool, w: nat)
    requires VecBelow(l, l2) && VecBelow(r, r2)
    ensures VecBelow(DivVec(mod, l, r, s, w), DivVec(mod, l2, r2, s, w))
  {
    if Defined(l) && Defined(r) {
      BelowDefined(l, l2);
      BelowDefined(r, r2);
    }
  }

  lemma BitsMonotone(op: BitsOp, l: Vec, l2: Vec, r: Vec, r2: Vec, w: nat)
    requires VecBelow(l, l2) && VecBelow(r, r2)
    ensures VecBelow(BitsVec(op, l, r, w), BitsVec(op, l2, r2, w))
  {
  }

  lemma TruthMonotone(v: Vec, u: Vec)
    requires VecBelow(v, u)
    ensures Below(Logical(v), Logical(u)) && Below(AllOnes(v), AllOnes(u)) && Below(Parity(v), Parity(u))
  {
    if Defined(v) {
      BelowDefined(v, u);
    } else {
      if i :| 0 <= i < |v| && v[i] == V1 {
        assert u[i] == V1;
      }
      if i :| 0 <= i < |v| && v[i] == V0 {
        assert u[i] == V0;
      }
    }
  }

  lemma CompMonotone(op: CompOp, l: Vec, l2: Vec, r: Vec, r2: Vec, s: bool)
    requires op != CaseEq && op != CaseNe && VecBelow(l, l2) && VecBelow(r, r2)
    ensures Below(CompBit(op, l, r, s), CompBit(op, l2, r2, s))
  {
    if Defined(l) && Defined(r) {
      BelowDefined(l, l2);
      BelowDefined(r, r2);
    } else if Mismatch(l, r) {
      var i :| 0 <= i < |l| && i < |r| && Known(l[i]) && Known(r[i]) && l[i] != r[i];
      assert l2[i] == l[i] && r2[i] == r[i];
    }
  }

  lemma ShiftMonotone(op: ShiftOp, l: Vec, l2: Vec, r: Vec, r2: Vec, s: bool, w: nat)
    requires VecBelow(l, l2) && VecBelow(r, r2)
    ensures VecBelow(ShiftBy(op, l, r, s, w), ShiftBy(op, l2, r2, s, w))
  {
    if Defined(r) {
      BelowDefined(r, r2);
      ValueRange(r);
      var n := Value(r, V0);
      var p, p2 := if op == ShArith then SignPad(l, s) else V0, if op == ShArith then SignPad(l2, s) else V0;
      var a, b := ShiftVec(op, l, n, s, w), ShiftVec(op, l2, n, s, w);
      forall i | 0 <= i < w
        ensures Below(a[i], b[i])
      {
        if op == ShLeft {
          assert i >= n ==> a[i] == At(l, i - n, V0) && b[i] == At(l2, i - n, V0);
        } else {
          assert a[i] == At(l, i + n, p) && b[i] == At(l2, i + n, p2);
        }
      }
    }
  }

  lemma {:induction false} ReplicateMonotone(v: Vec, u: Vec, n: nat)
    requires VecBelow(v, u)
    ensures VecBelow(Replicate(v, n), Replicate(u, n))
  {
    if n > 0 {
      ReplicateMonotone(v, u, n - 1);
    }
  }

  lemma SelectMonotone(v: Vec, u: Vec, b: Vec, c: Vec, bs: bool, w: nat)
    requires VecBelow(v, u) && VecBelow(b, c)
    ensures VecBelow(SelectAt(v, b, bs, w), SelectAt(u, c, bs, w))
  {
    if Defined(b) {
      BelowDefined(b, c);
    }
  }

  lemma ExtendMonotone(v: Vec, u: Vec, s: bool, w: nat)
    requires VecBelow(v, u)
    ensures VecBelow(ExtendVec(v, s, w), ExtendVec(u, s, w))
  {
  }

  lemma BlendMonotone(t: Vec, t2: Vec, f: Vec, f2: Vec)
    requires VecBelow(t, t2) && VecBelow(f, f2) && |t| == |f|
    ensures VecBelow(Blend(t, f), Blend(t2, f2)) && VecBelow(Blend(t, f), t2) && VecBelow(Blend(t, f), f2)
  {
  }

  lemma UnaryMonotone(op: UnaryOp, v: Vec, u: Vec, s: bool)
    requires VecBelow(v, u)
    ensures VecBelow(UnaryVec(op, v, s), UnaryVec(op, u, s))
  {
    if Defined(v) {
      BelowDefined(v, u);
    }
  }

  lemma RefinesSign(f: Expr, g: Expr)
    requires Refines(f, g)
    ensures Sign(f) == Sign(g)
  {
  }

  lemma LeafMonotone(f: Expr, g: Expr, env: Env, env2: Env)
    requires (f.Const? || f.Signal?) && Refines(f, g) && EnvBelow(env, env2)
    ensures VecBelow(Eval(f, env), Eval(g, env2))
  {
  }

  lemma {:induction false} EvalAllMonotone(fs: seq<Expr>, gs: seq<Expr>, env: Env, env2: Env)
    requires AllRefine(fs, gs) && EnvBelow(env, env2)
    requires AllWellFormed(fs) && AllWellTyped(fs, env) && AllMonotonic(fs)
    ensures VecBelow(Cat(EvalAll(fs, env)), Cat(EvalAll(gs, env2)))
    decreases fs, 0
  {
    if fs != [] {
      EvalMonotone(fs[0], gs[0], env, env2);
      EvalAllMonotone(fs[1..], gs[1..], env, env2);
      assert EvalAll(fs, env)[1..] == EvalAll(fs[1..], env);
      assert EvalAll(gs, env2)[1..] == EvalAll(gs[1..], env2);
    }
  }

  /** Evaluation is monotone in the constants of the tree and in the signals. */
  lemma {:induction false} EvalMonotone(f: Expr, g: Expr, env: Env, env2: Env)
    requires Refines(f, g) && EnvBelow(env, env2)
    requires WellFormed(f) && WellTyped(f, env) && Monotonic(f)
    ensures VecBelow(Eval(f, env), Eval(g, env2))
    decreases f, 1
  {
    hide *;
    if f.Const? || f.Signal? {
      LeafMonotone(f, g, env, env2);
    } else if f.Unary? || f.Reduce? {
      OperandMonotone(f, g, env, env2);
    } else if f.Ternary? {
      TernaryMonotone(f, g, env, env2);
    } else if f.Concat? || f.Extend? || f.Select? {
      StructureMonotone(f, g, env, env2);
    } else if f.Add? || f.Mult? || f.Div? {
      ArithMonotone(f, g, env, env2);
    } else {
      BinaryMonotone(f, g, env, env2);
    }
  }

  lemma {:induction false} OperandMonotone(f: Expr, g: Expr, env: Env, env2: Env)
    requires f.Unary? || f.Reduce?
    requires Refines(f, g) && EnvBelow(env, env2)
    requires WellFormed(f) && WellTyped(f, env) && Monotonic(f)
    ensures VecBelow(Eval(f, env), Eval(g, env2))
    decreases f, 0
  {
    EvalMonotone(f.x, g.x, env, env2);
    if f.Unary? {
      UnaryMonotone(f.unaryOp, Eval(f.x, env), Eval(g.x, env2), f.signed);
    } else {
      TruthMonotone(Eval(f.x, env), Eval(g.x, env2));
    }
  }

  lemma {:induction false} TernaryMonotone(f: Expr, g: Expr, env: Env, env2: Env)
    requires f.Ternary? && Refines(f, g) && EnvBelow(env, env2)
    requires WellFormed(f) && WellTyped(f, env) && Monotonic(f)
    ensures VecBelow(Eval(f, env), Eval(g, env2))
    decreases f, 0
  {
    EvalMonotone(f.cond, g.cond, env, env2);
    EvalMonotone(f.t, g.t, env, env2);
    EvalMonotone(f.f, g.f, env, env2);
    EvalWidth(f.t, env);
    EvalWidth(f.f, env);
    TruthMonotone(Eval(f.cond, env), Eval(g.cond, env2));
    BlendMonotone(Eval(f.t, env), Eval(g.t, env2), Eval(f.f, env), Eval(g.f, env2));
  }

  lemma {:induction false} StructureMonotone(f: Expr, g: Expr, env: Env, env2: Env)
    requires f.Concat? || f.Extend? || f.Select?
    requires Refines(f, g) && EnvBelow(env, env2)
    requires WellFormed(f) && WellTyped(f, env) && Monotonic(f)
    ensures VecBelow(Eval(f, env), Eval(g, env2))
    decreases f, 0
  {
    match f
    case Concat(ps, n, _, _) =>
      EvalAllMonotone(ps, g.parms, env, env2);
      ReplicateMonotone(Cat(EvalAll(ps, env)), Cat(EvalAll(g.parms, env2)), n);
    case Extend(x, w, s) =>
      EvalMonotone(x, g.x, env, env2);
      ExtendMonotone(Eval(x, env), Eval(g.x, env2), s, w);
    case Select(x, b, w, _) =>
      EvalMonotone(x, g.x, env, env2);
      EvalMonotone(b, g.base, env, env2);
      RefinesSign(b, g.base);
      SelectMonotone(Eval(x, env), Eval(g.x, env2), Eval(b, env), Eval(g.base, env2), Sign(b), w);
  }

  lemma {:induction false} ArithMonotone(f: Expr, g: Expr, env: Env, env2: Env)
    requires f.Add? || f.Mult? || f.Div?
    requires Refines(f, g) && EnvBelow(env, env2)
    requires WellFormed(f) && WellTyped(f, env) && Monotonic(f)
    ensures VecBelow(Eval(f, env), Eval(g, env2))
    decreases f, 0
  {
    EvalMonotone(f.l, g.l, env, env2);
    EvalMonotone(f.r, g.r, env, env2);
    var l, l2, r, r2 := Eval(f.l, env), Eval(g.l, env2), Eval(f.r, env), Eval(g.r, env2);
    match f
    case Add(op, _, _, w, _) => AddMonotone(op, l, l2, r, r2, w);
    case Mult(_, _, w, _) => MultMonotone(l, l2, r, r2, w);
    case Div(mod, _, _, w, s) => DivMonotone(mod, l, l2, r, r2, s, w);
  }

  lemma {:induction false} BinaryMonotone(f: Expr, g: Expr, env: Env, env2: Env)
    requires f.Bits? || f.Shift? || f.Comp? || f.Logic?
    requires Refines(f, g) && EnvBelow(env, env2)
    requires WellFormed(f) && WellTyped(f, env) && Monotonic(f)
    ensures VecBelow(Eval(f, env), Eval(g, env2))
    decreases f, 0
  {
    EvalMonotone(f.l, g.l, env, env2);
    EvalMonotone(f.r, g.r, env, env2);
    var l, l2, r, r2 := Eval(f.l, env), Eval(g.l, env2), Eval(f.r, env), Eval(g.r, env2);
    match f
    case Bits(op, _, _, w, _) => BitsMonotone(op, l, l2, r, r2, w);
    case Shift(op, _, _, w, s) => ShiftMonotone(op, l, l2, r, r2, s, w);
    case Comp(op, _, _) =>
      RefinesSign(f.l, g.l);
      RefinesSign(f.r, g.r);
      CompMonotone(op, l, l2, r, r2, Sign(f.l) && Sign(f.r));
    case Logic(_, _, _) =>
      TruthMonotone(l, l2);
      TruthMonotone(r, r2);
  }

  /** If folding reduced a tree to a constant, its 0 and 1 bits are those of every refinement, with more known
      bits in the constants of the tree and in the signals. */
  lemma FoldedBitsAreFinal(f: Expr, g: Expr, env: Env, env2: Env)
    requires WellFormed(f) && WellTyped(f, env) && Safe(f, env) && Monotonic(f)
    requires Fold(f).Const? && Refines(f, g) && EnvBelow(env, env2)
    ensures VecBelow(Fold(f).v.bits, Eval(g, env2))
  {
    FoldSound(f, env);
    EvalMonotone(f, g, env, env2);
  }

  /** === is outside the fragment for a reason: a known bit changes when an x is made known. */
  lemma CaseEqualityIsNotMonotone(env: Env)
    ensures var f := Comp(CaseEq, Const(Num4([VX], true, false)), Const(Num4([V0], true, false)));
            var g := Comp(CaseEq, Const(Num4([V0], true, false)), Const(Num4([V0], true, false)));
            Refines(f, g) && Eval(f, env) == [V0] && Eval(g, env) == [V1]
  {
  }
}
