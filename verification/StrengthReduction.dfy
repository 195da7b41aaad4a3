/** Multiplies and shifts against constants, simplified while elaborating
    (qflow-org/iverilog/elab_expr.cc:528-564, 932-1072). */
module StrengthReduction {
  import opened FourState
  import opened TwosComplement
  import opened Verinum
  import opened NetExpr
  import FoldExact

  function ConstX(w: nat, s: bool): Expr {
    Const(Num4(Fill(VX, w), true, s))
  }

  function ConstZero(w: nat, s: bool): Expr {
    Const(Num4(Fill(V0, w), true, s))
  }

  /** A known zero times an operand typed two-state. */
  predicate ZeroProduct(l: Expr, r: Expr) {
    r.Const? && IsZero(r.v) && TwoState(l)
  }

  /** elaborate_expr_base_mult_: constants go to the right; then undefined and zero constants. */
  function ElabMult(lp: Expr, rp: Expr, w: nat, s: bool): Expr {
    var (l, r) := if lp.Const? then (rp, lp) else (lp, rp);
    if r.Const? && !Defined(r.v.bits) && !TwoState(l) then ConstX(w, s)
    else if ZeroProduct(l, r) then ConstZero(w, s)
    else Mult(l, r, w, s)
  }

  /** Replicate the top bit: a one-bit select of it, sign-extended. */
  function TopBits(lp: Expr, w: nat): Expr
    requires w > 0
  {
    var base := Const(FromLong(w - 1));
    if w <= 1 then Select(lp, base, 1, true) else Extend(Select(lp, base, 1, false), w, true)
  }

  /** A known zero shifted by an amount typed two-state. */
  predicate ShiftOfZero(l: Expr, r: Expr) {
    l.Const? && Defined(l.v.bits) && IsZero(l.v) && TwoState(r)
  }

  /** PEBShift::elaborate_expr_leaf */
  function ElabShift(op: ShiftOp, lp: Expr, rp: Expr, w: nat, s: bool): Expr
    requires w > 0
  {
    if lp.Const? then
      if ShiftOfZero(lp, rp) then ConstZero(w, s) else Shift(op, lp, rp, w, s)
    else if rp.Const? then
      if !Defined(rp.v.bits) then ConstX(w, s)
      else if AsUlong(rp.v) == 0 then lp
      else if op == ShArith && s && AsUlong(rp.v) >= w then TopBits(lp, w)
      else if AsUlong(rp.v) >= w then ConstZero(w, s)
      else Shift(op, lp, rp, w, s)
    else Shift(op, lp, rp, w, s)
  }

  lemma {:induction false} EncodeZero(w: nat)
    ensures Encode(0, w) == Fill(V0, w)
  {
    if w > 0 {
      EncodeZero(w - 1);
    }
  }

  lemma MultCommutes(l: Vec, r: Vec, w: nat)
    ensures MultVec(l, r, w) == MultVec(r, l, w)
  {
    MulCommutes(Value(l, V0), Value(r, V0));
  }

  lemma MultByZero(l: Vec, r: Num4, w: nat)
    requires IsZero(r)
    ensures MultVec(l, r.bits, w) == if Defined(l) then Fill(V0, w) else Fill(VX, w)
  {
    ZeroValue(r.bits);
    EncodeZero(w);
    assert Value(l, V0) * 0 == 0;
  }

  /** The product is kept in every environment, except where a zero constant meets an operand
      that is typed two-state and yet holds x or z there. */
  lemma ElabMultExact(lp: Expr, rp: Expr, w: nat, s: bool, env: Env)
    requires w > 0
    ensures var (l, r) := if lp.Const? then (rp, lp) else (lp, rp);
            Eval(ElabMult(lp, rp, w, s), env) == Eval(Mult(lp, rp, w, s), env)
            <==> (ZeroProduct(l, r) ==> Defined(Eval(l, env)))
  {
    var (l, r) := if lp.Const? then (rp, lp) else (lp, rp);
    MultCommutes(Eval(l, env), Eval(r, env), w);
    if ZeroProduct(l, r) {
      MultByZero(Eval(l, env), r.v, w);
      assert Fill(V0, w)[0] != Fill(VX, w)[0];
    }
  }

  lemma {:induction false} ZeroOnly(v: Vec)
    requires Defined(v) && Value(v, V0) == 0
    ensures forall i :: 0 <= i < |v| ==> v[i] == V0
  {
    if |v| > 0 {
      ValueRange(v[1..]);
      ZeroOnly(v[1..]);
    }
  }

  lemma ZeroConst(v: Num4)
    requires |v.bits| > 0
    ensures IsZero(v) <==> Defined(v.bits) && Value(v.bits, V0) == 0
  {
    if IsZero(v) {
      ZeroValue(v.bits);
    } else if Defined(v.bits) && Value(v.bits, V0) == 0 {
      ZeroOnly(v.bits);
    }
  }

  /** What is left of a product: a constant exactly when one factor is a constant that holds x or z
      and the other is typed four-state, or is zero and the other is typed two-state. Otherwise it
      is the product, a constant factor on its right. */
  lemma ElabMultShape(lp: Expr, rp: Expr, w: nat, s: bool)
    requires Width(lp) > 0 && Width(rp) > 0
    ensures var (l, r) := if lp.Const? then (rp, lp) else (lp, rp);
            var simple := r.Const? && if TwoState(l) then Defined(r.v.bits) && Value(r.v.bits, V0) == 0
                                      else !Defined(r.v.bits);
            && (ElabMult(lp, rp, w, s).Const? <==> simple)
            && (!simple ==> ElabMult(lp, rp, w, s) == Mult(l, r, w, s))
  {
    if lp.Const? {
      ZeroConst(lp.v);
    } else if rp.Const? {
      ZeroConst(rp.v);
    }
  }

  lemma TopBitsMeans(lp: Expr, w: nat, env: Env)
    requires w > 0 && |Eval(lp, env)| == w
    ensures Eval(TopBits(lp, w), env) == Fill(Eval(lp, env)[w - 1], w)
  {
    var x := Eval(lp, env);
    FromLongExact(w - 1);
    var base := FromLong(w - 1);
    var inner := Select(lp, Const(base), 1, w <= 1);
    assert Eval(Const(base), env) == base.bits;
    assert Eval(inner, env) == SelectVec(x, w - 1, 1);
    assert SelectVec(x, w - 1, 1) == [x[w - 1]];
    if w > 1 {
      assert TopBits(lp, w) == Extend(inner, w, true);
      assert ExtendVec([x[w - 1]], true, w) == Fill(x[w - 1], w);
    }
  }

  lemma ShiftCases(op: ShiftOp, l: Vec, r: Num4, s: bool, w: nat)
    requires |l| == w > 0 && Defined(r.bits) && w < UINT_MAX
    ensures AsUlong(r) == 0 ==> ShiftBy(op, l, r.bits, s, w) == l
    ensures AsUlong(r) >= w ==> ShiftBy(op, l, r.bits, s, w) == Fill(if op == ShArith && s then l[w - 1] else V0, w)
  {
    ValueRange(r.bits);
    var n := Value(r.bits, V0);
    var v := ShiftVec(op, l, n, s, w);
    var pad := if op == ShArith then SignPad(l, s) else V0;
    forall i | 0 <= i < w
      ensures v[i] == if op == ShLeft then (if i < n then V0 else At(l, i - n, V0)) else At(l, i + n, pad)
    {
    }
    if AsUlong(r) == 0 {
      assert v == l;
    } else if AsUlong(r) >= w {
      assert v == Fill(if op == ShArith && s then l[w - 1] else V0, w);
    }
  }

  lemma ZeroShifted(op: ShiftOp, l: Num4, amount: nat, s: bool, w: nat)
    requires IsZero(l) && |l.bits| == w > 0
    ensures ShiftVec(op, l.bits, amount, s, w) == Fill(V0, w)
  {
    var v := ShiftVec(op, l.bits, amount, s, w);
    var pad := if op == ShArith then SignPad(l.bits, s) else V0;
    forall i | 0 <= i < w
      ensures v[i] == V0
    {
      assert v[i] == if op == ShLeft then (if i < amount then V0 else At(l.bits, i - amount, V0))
          else At(l.bits, i + amount, pad);
    }
  }

  lemma Smaller(op: ShiftOp, lp: Expr, rp: Expr, w: nat, s: bool)
    ensures lp != Shift(op, lp, rp, w, s)
  {
    var e := Shift(op, lp, rp, w, s);
    assert e.l < e;
  }

  /** What is left of a shift: a constant zero shifts by an unknown amount only when that is typed
      four-state, and nothing else is shifted by a constant outside 1 to w-1. */
  lemma ElabShiftShape(op: ShiftOp, lp: Expr, rp: Expr, w: nat, s: bool)
    requires 0 < w < UINT_MAX && Width(lp) == w && Width(rp) > 0
    ensures ElabShift(op, lp, rp, w, s) == Shift(op, lp, rp, w, s)
            <==> if lp.Const? then !(Defined(lp.v.bits) && Value(lp.v.bits, V0) == 0 && TwoState(rp))
                 else rp.Const? ==> Defined(rp.v.bits) && 0 < Value(rp.v.bits, V0) < w
  {
    if lp.Const? {
      ZeroConst(lp.v);
    } else if rp.Const? && Defined(rp.v.bits) {
      ValueRange(rp.v.bits);
      Smaller(op, lp, rp, w, s);
    }
  }

  /** Every shortcut keeps the shift's meaning at every width and signedness, except a shift of
      zero by an amount that is typed two-state and yet holds x or z. */
  lemma ElabShiftExact(op: ShiftOp, lp: Expr, rp: Expr, w: nat, s: bool, env: Env)
    requires WellFormed(Shift(op, lp, rp, w, s)) && WellTyped(lp, env) && WellTyped(rp, env)
    ensures Eval(ElabShift(op, lp, rp, w, s), env) == Eval(Shift(op, lp, rp, w, s), env)
            <==> (ShiftOfZero(lp, rp) ==> Defined(Eval(rp, env)))
  {
    EvalWidth(lp, env);
    if ShiftOfZero(lp, rp) {
      var r := Eval(rp, env);
      if Defined(r) {
        ValueRange(r);
        ZeroShifted(op, lp.v, Value(r, V0), s, w);
      } else {
        assert Fill(V0, w)[0] != Fill(VX, w)[0];
      }
    } else if !lp.Const? && rp.Const? && Defined(rp.v.bits) {
      ShiftCases(op, Eval(lp, env), rp.v, s, w);
      TopBitsMeans(lp, w, env);
    }
  }

  /** One bit of a two-state vector, selected beyond its end, is x; zero times it is simplified to zero. */
  lemma ZeroProductTrustsTwoState()
    ensures var sel, env, zero := FoldExact.WildSelect(), FoldExact.WildEnv(), ConstZero(1, false);
            && WellFormed(Mult(sel, zero, 1, false)) && WellTyped(sel, env)
            && Eval(ElabMult(sel, zero, 1, false), env) == [V0] && Eval(Mult(sel, zero, 1, false), env) == [VX]
  {
    FoldExact.WildSelectIsX();
    var sel, zero := FoldExact.WildSelect(), ConstZero(1, false);
    assert !Defined([VX]) by { assert !Known([VX][0]); }
    assert Fill(V0, 1) == [V0] && Fill(VX, 1) == [VX];
    assert ZeroProduct(sel, zero);
  }

  /** And so is zero shifted by it. */
  lemma ZeroShiftTrustsTwoState()
    ensures var sel, env, zero := FoldExact.WildSelect(), FoldExact.WildEnv(), ConstZero(1, false);
            && WellFormed(Shift(ShLeft, zero, sel, 1, false)) && WellTyped(sel, env)
            && Eval(ElabShift(ShLeft, zero, sel, 1, false), env) == [V0]
            && Eval(Shift(ShLeft, zero, sel, 1, false), env) == [VX]
  {
    FoldExact.WildSelectIsX();
    var sel, zero := FoldExact.WildSelect(), ConstZero(1, false);
    assert !Defined([VX]) by { assert !Known([VX][0]); }
    assert Fill(V0, 1) == [V0] && Fill(VX, 1) == [VX];
    assert ShiftOfZero(zero, sel);
  }
}
