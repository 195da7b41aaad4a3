/** What the operators of elaborated expressions say, on integers and single bits (sections 5.1 and
    5.2 of IEEE 1364-2005). Each statement speaks of the value of a node and of the values of
    its operands, and names no other definition of the operator. */
module OperatorMeaning {
  import opened FourState
  import opened TwosComplement
  import opened Verinum
  import opened NetExpr

  // ----- a node is its operator on the values of its operands -----

  lemma ValueOfAdd(op: AddOp, l: Expr, r: Expr, w: nat, s: bool, env: Env)
    ensures Eval(Add(op, l, r, w, s), env) == AddVec(op, Eval(l, env), Eval(r, env), w)
  {
    hide AddVec;
  }

  lemma ValueOfMult(l: Expr, r: Expr, w: nat, s: bool, env: Env)
    ensures Eval(Mult(l, r, w, s), env) == MultVec(Eval(l, env), Eval(r, env), w)
  {
    hide MultVec;
  }

  lemma ValueOfBits(op: BitsOp, l: Expr, r: Expr, w: nat, s: bool, env: Env)
    ensures Eval(Bits(op, l, r, w, s), env) == BitsVec(op, Eval(l, env), Eval(r, env), w)
  {
    hide BitsVec;
  }

  lemma ValueOfReduce(op: ReduceOp, x: Expr, env: Env)
    ensures Eval(Reduce(op, x), env) == [ReduceBit(op, Eval(x, env))]
  {
    hide ReduceBit;
  }

  lemma ValueOfShift(op: ShiftOp, l: Expr, r: Expr, w: nat, s: bool, env: Env)
    ensures Eval(Shift(op, l, r, w, s), env) == ShiftBy(op, Eval(l, env), Eval(r, env), s, w)
  {
    hide ShiftBy;
  }

  lemma ValueOfLogic(op: LogicOp, l: Expr, r: Expr, env: Env)
    ensures Eval(Logic(op, l, r), env) == [LogicBit(op, Logical(Eval(l, env)), Logical(Eval(r, env)))]
  {
    hide LogicBit, Logical;
  }

  lemma ValueOfUnary(op: UnaryOp, x: Expr, w: nat, s: bool, env: Env)
    ensures Eval(Unary(op, x, w, s), env) == UnaryVec(op, Eval(x, env), s)
  {
    hide UnaryVec;
  }

  // ----- arithmetic -----

  /** + - and * modulo 2^w; x in every bit for an operand that holds x or z. */
  lemma ArithmeticMeaning(l: Expr, r: Expr, w: nat, s: bool, env: Env)
    ensures var a, b := Eval(l, env), Eval(r, env);
            var sum, difference, product :=
              Eval(Add(OpPlus, l, r, w, s), env), Eval(Add(OpMinus, l, r, w, s), env), Eval(Mult(l, r, w, s), env);
            if Defined(a) && Defined(b) then
              && Value(sum, V0) == (Value(a, V0) + Value(b, V0)) % Pow2(w)
              && Value(difference, V0) == (Value(a, V0) - Value(b, V0)) % Pow2(w)
              && Value(product, V0) == (Value(a, V0) * Value(b, V0)) % Pow2(w)
            else sum == difference == product == Fill(VX, w)
  {
    hide Value, Encode, Eval;
    ValueOfAdd(OpPlus, l, r, w, s, env);
    ValueOfAdd(OpMinus, l, r, w, s, env);
    ValueOfMult(l, r, w, s, env);
    var a, b := Eval(l, env), Eval(r, env);
    if Defined(a) && Defined(b) {
      ValueOfEncode(Value(a, V0) + Value(b, V0), w);
      ValueOfEncode(Value(a, V0) - Value(b, V0), w);
      ValueOfEncode(Value(a, V0) * Value(b, V0), w);
    }
  }

  lemma NaturalQuotient(n: nat, d: nat)
    requires d > 0
    ensures var q := n / d; 0 <= q <= n && 0 <= n - q * d < d && (q == n > 0 ==> d == 1)
  {
    var q := n / d;
    MulCommutes(d, q);
    MulMonotone(q, 1, d);
    if d > 1 {
      MulMonotone(q, 2, d);
    }
  }

  /** Giving a quotient of magnitudes its sign gives the product its sign. */
  lemma SignedTimes(signed: int, q: int, a: int, b: int)
    requires q >= 0 && signed == if (a < 0) == (b < 0) then q else -q
    ensures signed * b == if a < 0 then -(q * Magnitude(b)) else q * Magnitude(b)
    ensures Magnitude(signed) == q
  {
    MulSigns(q, b);
  }

  lemma QuotientIs(a: int, b: int)
    requires b != 0
    ensures Quotient(a, b)
            == if (a < 0) == (b < 0) then Magnitude(a) / Magnitude(b) else -(Magnitude(a) / Magnitude(b))
  {
    hide Magnitude;
  }

  lemma MagnitudeQuotient(a: int, b: int) returns (q: int, d: int)
    requires b != 0
    ensures d == Magnitude(b) && Quotient(a, b) == if (a < 0) == (b < 0) then q else -q
    ensures 0 <= Magnitude(a) - q * d < d && 0 <= q <= Magnitude(a) && (q == Magnitude(a) > 0 ==> d == 1)
  {
    hide Quotient;
    d := Magnitude(b);
    NaturalQuotient(Magnitude(a), d);
    QuotientIs(a, b);
    q := Magnitude(a) / d;
  }

  /** The bounds, given the two products. */
  lemma BoundsFrom(a: int, b: int, signed: int, q: int, whole: int, product: int)
    requires b != 0 && 0 <= Magnitude(a) - whole < Magnitude(b) && product == if a < 0 then -whole else whole
    requires Magnitude(signed) == q <= Magnitude(a) && (q == Magnitude(a) > 0 ==> Magnitude(b) == 1)
    ensures var m := a - product;
            && (0 - b < m < b || b < m < 0 - b) && (m == 0 || (m < 0) == (a < 0))
            && Magnitude(signed) <= Magnitude(a)
            && (Magnitude(signed) == Magnitude(a) > 0 ==> b == 1 || b == -1)
  {
  }

  lemma QuotientBounds(a: int, b: int)
    requires b != 0
    ensures var q := Quotient(a, b);
            var m := a - q * b;
            && (0 - b < m < b || b < m < 0 - b) && (m == 0 || (m < 0) == (a < 0))
            && Magnitude(q) <= Magnitude(a)
            && (Magnitude(q) == Magnitude(a) > 0 ==> b == 1 || b == -1)
  {
    hide Quotient;
    var q, d := MagnitudeQuotient(a, b);
    SignedTimes(Quotient(a, b), q, a, b);
    BoundsFrom(a, b, Quotient(a, b), q, q * d, Quotient(a, b) * b);
  }

  /** Both results of dividing two numbers of w bits are numbers of w bits, but for one quotient. */
  lemma QuotientFits(a: int, b: int, w: nat, s: bool)
    requires Fits(a, w, s) && Fits(b, w, s) && b != 0
    ensures Fits(a - Quotient(a, b) * b, w, s)
    ensures Fits(Quotient(a, b), w, s) <==> !(s && b == -1 && a == 0 - Pow2(w - 1))
    ensures s && b == -1 && a == 0 - Pow2(w - 1) ==> Quotient(a, b) == Pow2(w - 1) && a - Quotient(a, b) * b == 0
  {
    QuotientBounds(a, b);
    assert !s ==> Quotient(a, b) >= 0;
    if b == -1 {
      assert Quotient(a, b) == -a;
    } else if b == 1 {
      assert Quotient(a, b) == a;
    }
  }

  /** / and %: truncation towards zero, and a remainder with the sign of the dividend, at every
      width and sign; only the most negative number over -1 overflows. */
  lemma DivisionMeaning(l: Expr, r: Expr, w: nat, s: bool, env: Env)
    requires WellFormed(Div(false, l, r, w, s)) && WellTyped(l, env) && WellTyped(r, env)
    requires Defined(Eval(l, env)) && Defined(Eval(r, env)) && Num(Eval(r, env), s) != 0
    ensures var a, b := Num(Eval(l, env), s), Num(Eval(r, env), s);
            var q, m := Num(Eval(Div(false, l, r, w, s), env), s), Num(Eval(Div(true, l, r, w, s), env), s);
            var overflows := s && b == -1 && a == 0 - Pow2(w - 1);
            && (0 - b < m < b || b < m < 0 - b) && (m == 0 || (m < 0) == (a < 0))
            && (a == q * b + m <==> !overflows)
            && (overflows ==> q == a && m == 0)
  {
    hide Value, Encode, Quotient;
    EvalWidth(l, env);
    EvalWidth(r, env);
    var a, b := Num(Eval(l, env), s), Num(Eval(r, env), s);
    IntRange(Num4(Eval(l, env), true, s));
    IntRange(Num4(Eval(r, env), true, s));
    QuotientBounds(a, b);
    QuotientFits(a, b, w, s);
    ExactWhenInRange(a - Quotient(a, b) * b, w, s);
    if s && b == -1 && a == 0 - Pow2(w - 1) {
      EncodeCongruent(0 - Pow2(w - 1), 1, w);
      assert Pow2(w) == 2 * Pow2(w - 1);
      ExactWhenInRange(a, w, true);
    } else {
      ExactWhenInRange(Quotient(a, b), w, s);
    }
  }

  lemma SmallMultiple(k: int, b: int)
    requires 0 <= k * b < b || 0 <= k * b < -b
    ensures k * b == 0
  {
    if k >= 1 {
      MulMonotone(Magnitude(b), 1, k);
    } else if k <= -1 {
      MulMonotone(Magnitude(b), k, -1);
    }
  }

  lemma Euclid(x: int, b: int)
    requires b != 0
    ensures x == x / b * b + x % b && (0 <= x % b < b || 0 <= x % b < -b)
  {
  }

  lemma MultipleOf(q: int, b: int)
    requires b != 0
    ensures q * b % b == 0
  {
    var x := q * b;
    Euclid(x, b);
    var d, r := x / b, x % b;
    MulDistrib(b, q, d);
    assert (q - d) * b == r;
    SmallMultiple(q - d, b);
  }

  /** The same of the vectors alone: a quotient leaves a remainder that is smaller than the divisor and
      zero or of the dividend's sign, and a remainder is one and leaves a multiple of the divisor. */
  lemma DividedVectors(mod: bool, l: Vec, r: Vec, s: bool)
    requires |l| == |r| > 0 && Defined(l) && Defined(r) && Num(r, s) != 0
    requires mod || !s || Num(r, s) != -1 || Num(l, s) != 0 - Pow2(|l| - 1)
    ensures var a, b, n := Num(l, s), Num(r, s), Num(DivVec(mod, l, r, s, |l|), s);
            var m := if mod then n else a - n * b;
            && (0 - b < m < b || b < m < 0 - b) && (m == 0 || (m < 0) == (a < 0))
            && (a - m) % b == 0
  {
    hide Num, DivVec, Pow2;
    var env: Env := _ => [];
    var left, right, w := Const(Num4(l, true, s)), Const(Num4(r, true, s)), |l|;
    DivisionMeaning(left, right, w, s, env);
    assert Eval(Div(mod, left, right, w, s), env) == DivVec(mod, l, r, s, w);
    var a, b := Num(l, s), Num(r, s);
    var q, m := Num(Eval(Div(false, left, right, w, s), env), s), Num(Eval(Div(true, left, right, w, s), env), s);
    MultipleOf(q, b);
    if s && b == -1 && a == 0 - Pow2(w - 1) {
      assert m == 0;
      MultipleOf(0 - a, b);
    }
  }

  /** A zero divisor, or an operand that holds x or z, gives x. */
  lemma DivisionUnknown(mod: bool, l: Expr, r: Expr, w: nat, s: bool, env: Env)
    requires !Defined(Eval(l, env)) || !Defined(Eval(r, env)) || Num(Eval(r, env), s) == 0
    ensures Eval(Div(mod, l, r, w, s), env) == Fill(VX, w)
  {
  }

  lemma AbsMeaning(v: Vec, s: bool)
    requires |v| > 0 && Defined(v)
    ensures var a, n := Num(v, s), Num(UnaryVec(Abs, v, s), s);
            if a >= 0 then n == a else if a == 0 - Pow2(|v| - 1) then n == a else n == -a
  {
    var w := |v|;
    var a := Num(v, s);
    hide Value, Encode;
    ValuePadded(v, SignPad(v, s));
    ValueRange(v);
    if a < 0 {
      SignedRange(v);
      EncodeCongruent(-a, -1, w);
      EncodeOfValue(v, SignPad(v, s));
      assert -Value(v, V0) == -a + -1 * Pow2(w);
      if a == 0 - Pow2(w - 1) {
        EncodeCongruent(a, 1, w);
        assert Pow2(w) == 2 * Pow2(w - 1);
        ExactWhenInRange(a, w, true);
      } else {
        ExactWhenInRange(-a, w, true);
      }
    }
  }

  lemma UnaryValues(v: Vec, s: bool)
    requires Defined(v)
    ensures UnaryVec(Pos, v, s) == v
    ensures Value(UnaryVec(Neg, v, s), V0) == -Value(v, V0) % Pow2(|v|)
    ensures Value(UnaryVec(Inv, v, s), V0) == Pow2(|v|) - 1 - Value(v, V0)
  {
    hide Value, Encode;
    ValueOfEncode(-Value(v, V0), |v|);
    ValueOfNot(v, V0);
    ValuePadded(NotVec(v), V1);
  }

  /** Unary operators of a defined operand: the same number, its negative modulo 2^w, its
      magnitude but for the most negative number, and the number of the inverted bits. */
  lemma UnaryMeaning(x: Expr, w: nat, s: bool, env: Env)
    requires WellFormed(Unary(Pos, x, w, s)) && WellTyped(x, env) && Defined(Eval(x, env))
    ensures var v := Eval(x, env);
            var a, n := Num(v, s), Num(Eval(Unary(Abs, x, w, s), env), s);
            && Eval(Unary(Pos, x, w, s), env) == v
            && Value(Eval(Unary(Neg, x, w, s), env), V0) == -Value(v, V0) % Pow2(w)
            && Value(Eval(Unary(Inv, x, w, s), env), V0) == Pow2(w) - 1 - Value(v, V0)
            && (if a >= 0 then n == a else if a == 0 - Pow2(w - 1) then n == a else n == -a)
  {
    hide Value, Encode, Num, Eval, UnaryVec;
    EvalWidth(x, env);
    var v := Eval(x, env);
    ValueOfUnary(Pos, x, w, s, env);
    ValueOfUnary(Neg, x, w, s, env);
    ValueOfUnary(Inv, x, w, s, env);
    ValueOfUnary(Abs, x, w, s, env);
    UnaryValues(v, s);
    AbsMeaning(v, s);
  }

  /** With an unknown bit: + keeps it, - and abs() give x, ~ inverts the bits that are known. */
  lemma UnaryUnknown(x: Expr, w: nat, s: bool, env: Env)
    requires !Defined(Eval(x, env))
    ensures var v := Eval(x, env);
            var inverse := Eval(Unary(Inv, x, w, s), env);
            && Eval(Unary(Pos, x, w, s), env) == v && |inverse| == |v|
            && Eval(Unary(Neg, x, w, s), env) == Eval(Unary(Abs, x, w, s), env) == Fill(VX, |v|)
            && forall i :: 0 <= i < |v| ==>
                 (inverse[i] == V1 <==> v[i] == V0) && (inverse[i] == V0 <==> v[i] == V1) && inverse[i] != VZ
  {
  }

  // ----- comparison -----

  /** The four order comparisons of defined operands compare their integers. */
  lemma OrderMeaning(l: Expr, r: Expr, env: Env)
    requires Sign(l) == Sign(r) && Defined(Eval(l, env)) && Defined(Eval(r, env))
    ensures var a, b := Num(Eval(l, env), Sign(l)), Num(Eval(r, env), Sign(r));
            && Eval(Comp(Lt, l, r), env) == (if a < b then [V1] else [V0])
            && Eval(Comp(Le, l, r), env) == (if a <= b then [V1] else [V0])
            && Eval(Comp(Gt, l, r), env) == (if a > b then [V1] else [V0])
            && Eval(Comp(Ge, l, r), env) == (if a >= b then [V1] else [V0])
  {
  }

  lemma OrderUnknown(op: CompOp, l: Expr, r: Expr, env: Env)
    requires op in {Lt, Le, Gt, Ge} && (!Defined(Eval(l, env)) || !Defined(Eval(r, env)))
    ensures Eval(Comp(op, l, r), env) == [VX]
  {
  }

  lemma SameBitsSameInt(a: Vec, b: Vec, s: bool)
    requires |a| == |b| && Defined(a) && Defined(b)
    ensures a == b <==> Num(a, s) == Num(b, s)
  {
    EncodeOfValue(a, SignPad(a, s));
    EncodeOfValue(b, SignPad(b, s));
  }

  /** The equalities of defined operands of one width compare their integers; with unknown bits,
      === compares bit for bit, and == is 0 when two known bits differ and x otherwise. */
  lemma EqualityMeaning(l: Expr, r: Expr, env: Env)
    requires Sign(l) == Sign(r) && |Eval(l, env)| == |Eval(r, env)|
    ensures var u, v, s := Eval(l, env), Eval(r, env), Sign(l);
            var eq, ne := Eval(Comp(Eq, l, r), env), Eval(Comp(Ne, l, r), env);
            && Eval(Comp(CaseEq, l, r), env) == (if u == v then [V1] else [V0])
            && Eval(Comp(CaseNe, l, r), env) == (if u == v then [V0] else [V1])
            && (Defined(u) && Defined(v) ==>
                  && eq == (if Num(u, s) == Num(v, s) then [V1] else [V0])
                  && ne == (if Num(u, s) == Num(v, s) then [V0] else [V1]))
            && (!(Defined(u) && Defined(v)) ==>
                  if exists i :: 0 <= i < |u| && Known(u[i]) && Known(v[i]) && u[i] != v[i]
                  then eq == [V0] && ne == [V1] else eq == ne == [VX])
  {
    hide Value;
    var u, v := Eval(l, env), Eval(r, env);
    if Defined(u) && Defined(v) {
      SameBitsSameInt(u, v, Sign(l));
      if u != v {
        var i :| 0 <= i < |u| && u[i] != v[i];
        assert Mismatch(u, v);
      }
    }
  }

  // ----- bits -----

  /** 1 when `one` holds, 0 when `zero` does, and x otherwise. */
  function Choice(one: bool, zero: bool): Bit {
    if one then V1 else if zero then V0 else VX
  }

  predicate Yields(e: Expr, env: Env, i: nat, one: bool, zero: bool) {
    i < |Eval(e, env)| && Eval(e, env)[i] == Choice(one, zero)
  }

  lemma BitsAt(op: BitsOp, l: Expr, r: Expr, w: nat, s: bool, env: Env, i: nat)
    requires i < w == |Eval(l, env)| == |Eval(r, env)|
    ensures |Eval(Bits(op, l, r, w, s), env)| == w
    ensures Eval(Bits(op, l, r, w, s), env)[i] == BitsBit(op, Eval(l, env)[i], Eval(r, env)[i])
  {
    hide Eval, BitsBit;
    ValueOfBits(op, l, r, w, s, env);
  }

  lemma BitTable(a: Bit, b: Bit)
    ensures var known := Known(a) && Known(b);
            && BitsBit(BitAnd, a, b) == Choice(a == V1 && b == V1, a == V0 || b == V0)
            && BitsBit(BitNand, a, b) == Choice(a == V0 || b == V0, a == V1 && b == V1)
            && BitsBit(BitOr, a, b) == Choice(a == V1 || b == V1, a == V0 && b == V0)
            && BitsBit(BitNor, a, b) == Choice(a == V0 && b == V0, a == V1 || b == V1)
            && BitsBit(BitXor, a, b) == Choice(known && a != b, known && a == b)
            && BitsBit(BitXnor, a, b) == Choice(known && a == b, known && a != b)
  {
  }

  /** Each bit of & | ^ and their inverses, from the two bits in its place. */
  lemma BitsMeaning(l: Expr, r: Expr, w: nat, s: bool, env: Env, i: nat)
    requires i < w == |Eval(l, env)| == |Eval(r, env)|
    ensures var a, b := Eval(l, env)[i], Eval(r, env)[i];
            var known := Known(a) && Known(b);
            && Yields(Bits(BitAnd, l, r, w, s), env, i, a == V1 && b == V1, a == V0 || b == V0)
            && Yields(Bits(BitNand, l, r, w, s), env, i, a == V0 || b == V0, a == V1 && b == V1)
            && Yields(Bits(BitOr, l, r, w, s), env, i, a == V1 || b == V1, a == V0 && b == V0)
            && Yields(Bits(BitNor, l, r, w, s), env, i, a == V0 && b == V0, a == V1 || b == V1)
            && Yields(Bits(BitXor, l, r, w, s), env, i, known && a != b, known && a == b)
            && Yields(Bits(BitXnor, l, r, w, s), env, i, known && a == b, known && a != b)
  {
    hide Eval, BitsBit, BitsVec, Choice;
    BitTable(Eval(l, env)[i], Eval(r, env)[i]);
    BitsAt(BitAnd, l, r, w, s, env, i);
    BitsAt(BitNand, l, r, w, s, env, i);
    BitsAt(BitOr, l, r, w, s, env, i);
    BitsAt(BitNor, l, r, w, s, env, i);
    BitsAt(BitXor, l, r, w, s, env, i);
    BitsAt(BitXnor, l, r, w, s, env, i);
  }

  lemma {:induction false} CountsAll(v: Vec, b: Bit)
    ensures multiset(v)[b] <= |v|
    ensures multiset(v)[b] == |v| <==> forall i :: 0 <= i < |v| ==> v[i] == b
  {
    if v != [] {
      CountsAll(v[1..], b);
      assert v == [v[0]] + v[1..];
      assert forall i :: 1 <= i < |v| ==> v[i] == v[1..][i - 1];
      assert forall i :: 0 <= i < |v| - 1 ==> v[1..][i] == v[i + 1];
    }
  }

  lemma {:induction false} CountsOnes(v: Vec)
    ensures Ones(v) == multiset(v)[V1]
  {
    if v != [] {
      CountsOnes(v[1..]);
      assert v == [v[0]] + v[1..];
    }
  }

  lemma CountsSome(v: Vec, b: Bit)
    ensures multiset(v)[b] > 0 <==> exists i :: 0 <= i < |v| && v[i] == b
  {
    assert multiset(v)[b] > 0 <==> b in v;
  }

  lemma ReducedAnd(v: Vec)
    requires |v| > 0
    ensures AllOnes(v) == if multiset(v)[V1] == |v| then V1 else if multiset(v)[V0] > 0 then V0 else VX
  {
    CountsAll(v, V1);
    CountsSome(v, V0);
    assert v[0] in v;
    if Defined(v) && multiset(v)[V1] != |v| {
      var i :| 0 <= i < |v| && v[i] != V1;
      assert v[i] == V0;
    }
  }

  lemma ReducedOr(v: Vec)
    requires |v| > 0
    ensures Logical(v) == if multiset(v)[V1] > 0 then V1 else if multiset(v)[V0] == |v| then V0 else VX
  {
    CountsAll(v, V0);
    CountsSome(v, V1);
    if Defined(v) && multiset(v)[V0] != |v| {
      var i :| 0 <= i < |v| && v[i] != V0;
      assert v[i] == V1;
    }
  }

  lemma {:induction false} KnownCount(v: Vec)
    ensures multiset(v)[V0] + multiset(v)[V1] <= |v|
    ensures multiset(v)[V0] + multiset(v)[V1] == |v| <==> Defined(v)
  {
    if v != [] {
      KnownCount(v[1..]);
      assert v == [v[0]] + v[1..];
      assert Defined(v) <==> Known(v[0]) && Defined(v[1..]) by {
        assert forall i :: 1 <= i < |v| ==> v[i] == v[1..][i - 1];
        assert forall i :: 0 <= i < |v| - 1 ==> v[1..][i] == v[i + 1];
      }
    }
  }

  lemma ReduceTable(v: Vec)
    requires |v| > 0
    ensures var zeros, ones, all := multiset(v)[V0], multiset(v)[V1], |v|;
            && ReduceBit(RedAnd, v) == Choice(ones == all, zeros > 0)
            && ReduceBit(RedNand, v) == Choice(zeros > 0, ones == all)
            && ReduceBit(RedOr, v) == Choice(ones > 0, zeros == all)
            && ReduceBit(RedNor, v) == Choice(zeros == all, ones > 0)
            && ReduceBit(LogNot, v) == Choice(zeros == all, ones > 0)
            && var odd, even := ones + zeros == all && ones % 2 == 1, ones + zeros == all && ones % 2 == 0;
               ReduceBit(RedXor, v) == Choice(odd, even) && ReduceBit(RedXnor, v) == Choice(even, odd)
  {
    hide AllOnes, Logical, Ones;
    ReducedAnd(v);
    ReducedOr(v);
    KnownCount(v);
    CountsOnes(v);
  }

  /** The reductions by counting: how many bits are 0, how many are 1, and whether they are all. */
  lemma ReductionMeaning(x: Expr, env: Env)
    requires |Eval(x, env)| > 0
    ensures var v := Eval(x, env);
            var zeros, ones, all := multiset(v)[V0], multiset(v)[V1], |v|;
            && Eval(Reduce(RedAnd, x), env) == [Choice(ones == all, zeros > 0)]
            && Eval(Reduce(RedNand, x), env) == [Choice(zeros > 0, ones == all)]
            && Eval(Reduce(RedOr, x), env) == [Choice(ones > 0, zeros == all)]
            && Eval(Reduce(RedNor, x), env) == [Choice(zeros == all, ones > 0)]
            && Eval(Reduce(LogNot, x), env) == [Choice(zeros == all, ones > 0)]
            && Eval(Reduce(RedXor, x), env)
               == [Choice(ones + zeros == all && ones % 2 == 1, ones + zeros == all && ones % 2 == 0)]
            && Eval(Reduce(RedXnor, x), env)
               == [Choice(ones + zeros == all && ones % 2 == 0, ones + zeros == all && ones % 2 == 1)]
  {
    hide Eval, ReduceBit;
    ReduceTable(Eval(x, env));
    ValueOfReduce(RedAnd, x, env);
    ValueOfReduce(RedNand, x, env);
    ValueOfReduce(RedOr, x, env);
    ValueOfReduce(RedNor, x, env);
    ValueOfReduce(LogNot, x, env);
    ValueOfReduce(RedXor, x, env);
    ValueOfReduce(RedXnor, x, env);
  }

  lemma TruthMeaning(v: Vec)
    ensures Logical(v) == if V1 in v then V1 else if forall i :: 0 <= i < |v| ==> v[i] == V0 then V0 else VX
  {
    if V1 !in v && Defined(v) {
      forall i | 0 <= i < |v|
        ensures v[i] == V0
      {
        assert v[i] in v;
      }
    }
  }

  /** && and || of operands that count as true with a bit that is 1 and as false when all are 0. */
  lemma LogicMeaning(l: Expr, r: Expr, env: Env)
    ensures var u, v := Eval(l, env), Eval(r, env);
            var (true1, false1) := (V1 in u, forall i :: 0 <= i < |u| ==> u[i] == V0);
            var (true2, false2) := (V1 in v, forall i :: 0 <= i < |v| ==> v[i] == V0);
            && Eval(Logic(LogAnd, l, r), env) == [if true1 && true2 then V1 else if false1 || false2 then V0 else VX]
            && Eval(Logic(LogOr, l, r), env) == [if true1 || true2 then V1 else if false1 && false2 then V0 else VX]
  {
    hide Eval, Logical;
    ValueOfLogic(LogAnd, l, r, env);
    ValueOfLogic(LogOr, l, r, env);
    TruthMeaning(Eval(l, env));
    TruthMeaning(Eval(r, env));
  }

  /** A condition with a bit that is 1 picks the first branch, one of zeros the second, and any other
      keeps the bits on which the two agree. */
  lemma TernaryMeaning(c: Expr, t: Expr, f: Expr, w: nat, s: bool, env: Env)
    requires |Eval(t, env)| == |Eval(f, env)|
    ensures var v, a, b, r := Eval(c, env), Eval(t, env), Eval(f, env), Eval(Ternary(c, t, f, w, s), env);
            if V1 in v then r == a
            else if forall i :: 0 <= i < |v| ==> v[i] == V0 then r == b
            else |r| == |a| && forall i :: 0 <= i < |a| ==> r[i] == if a[i] == b[i] then a[i] else VX
  {
    TruthMeaning(Eval(c, env));
  }

  // ----- shifts -----

  lemma LeftBits(v: Vec, n: nat, s: bool, w: nat)
    requires |v| == w
    ensures ShiftVec(ShLeft, v, n, s, w) == (Fill(V0, n) + v)[..w]
  {
    var r, whole := ShiftVec(ShLeft, v, n, s, w), Fill(V0, n) + v;
    forall i | 0 <= i < w
      ensures r[i] == whole[i]
    {
      assert r[i] == if i < n then V0 else At(v, i - n, V0);
    }
  }

  lemma ShiftedUp(v: Vec, n: nat, s: bool, w: nat)
    requires |v| == w && Defined(v)
    ensures Value(ShiftVec(ShLeft, v, n, s, w), V0) == (Value(v, V0) * Pow2(n)) % Pow2(w)
  {
    hide Value, Encode, ShiftVec, Pow2;
    var whole := Fill(V0, n) + v;
    LeftBits(v, n, s, w);
    ZerosBelow(v, n);
    EncodeOfValue(whole, V0);
    EncodePrefix(Value(whole, V0), n + w, w);
    ValueOfEncode(Value(whole, V0), w);
    MulCommutes(Pow2(n), Value(v, V0));
  }

  lemma ShiftedDown(op: ShiftOp, v: Vec, n: nat, s: bool, w: nat, pad: Bit)
    requires op != ShLeft && |v| == w && Defined(v) && pad == if op == ShArith then SignPad(v, s) else V0
    ensures Value(ShiftVec(op, v, n, s, w), pad) == Value(v, pad) / Pow2(n)
  {
    var r := ShiftVec(op, v, n, s, w);
    var long := v + Fill(pad, n);
    forall i | 0 <= i < w
      ensures r[i] == long[n + i]
    {
      assert r[i] == At(v, i + n, pad);
    }
    assert r == long[n..];
    ValueExtend(v, pad, n);
    ValueSplit(long, n, pad);
    ValueRange(long[..n]);
    ModUnique(Value(v, pad), Pow2(n), Value(r, pad), Value(long[..n], V0));
  }

  lemma RightKeepsPad(v: Vec, n: nat, s: bool, w: nat)
    requires |v| == w > 0
    ensures SignPad(ShiftVec(ShArith, v, n, s, w), s) == SignPad(v, s)
  {
    var pad := SignPad(v, s);
    assert ShiftVec(ShArith, v, n, s, w)[w - 1] == At(v, w - 1 + n, pad);
  }

  /** A shift by n multiplies by 2^n and drops what leaves the top, or divides by it rounding down;
      a signed >>> divides the signed number. Every n is meant, up to and beyond the width. */
  lemma ShiftMeaning(l: Expr, r: Expr, w: nat, s: bool, env: Env)
    requires w > 0 && |Eval(l, env)| == w && Defined(Eval(l, env)) && Defined(Eval(r, env))
    ensures var v, n := Eval(l, env), Value(Eval(r, env), V0);
            && n >= 0
            && Value(Eval(Shift(ShLeft, l, r, w, s), env), V0) == (Value(v, V0) * Pow2(n)) % Pow2(w)
            && Value(Eval(Shift(ShRight, l, r, w, s), env), V0) == Value(v, V0) / Pow2(n)
            && Num(Eval(Shift(ShArith, l, r, w, s), env), s) == Num(v, s) / Pow2(n)
  {
    hide Eval, Value, Encode, ShiftVec;
    ValueOfShift(ShLeft, l, r, w, s, env);
    ValueOfShift(ShRight, l, r, w, s, env);
    ValueOfShift(ShArith, l, r, w, s, env);
    ValueRange(Eval(r, env));
    var v, n := Eval(l, env), Value(Eval(r, env), V0);
    ShiftedUp(v, n, s, w);
    ShiftedDown(ShRight, v, n, s, w, V0);
    ShiftedDown(ShArith, v, n, s, w, SignPad(v, s));
    RightKeepsPad(v, n, s, w);
  }

  lemma ShiftDefined(v: Vec, n: nat, s: bool, w: nat)
    requires |v| == w && Defined(v)
    ensures Defined(ShiftVec(ShLeft, v, n, s, w))
  {
    LeftBits(v, n, s, w);
  }

  lemma ShiftedBits(op: ShiftOp, v: Vec, n: nat, s: bool, w: nat)
    requires |v| == w
    ensures var u := ShiftVec(op, v, n, s, w);
            forall i :: 0 <= i < w ==>
              u[i] == if op == ShLeft then (if i < n then V0 else v[i - n])
                      else if i + n < w then v[i + n]
                      else if op == ShArith && s then v[w - 1] else V0
  {
    var u := ShiftVec(op, v, n, s, w);
    var pad := if op == ShArith then SignPad(v, s) else V0;
    forall i | 0 <= i < w
      ensures u[i] == if op == ShLeft then (if i < n then V0 else At(v, i - n, V0)) else At(v, i + n, pad)
    {
    }
  }

  /** By an amount that holds x or z: x; bits that hold x or z move like any other. */
  lemma ShiftUnknown(op: ShiftOp, l: Expr, r: Expr, w: nat, s: bool, env: Env, n: nat)
    requires |Eval(l, env)| == w
    ensures !Defined(Eval(r, env)) ==> Eval(Shift(op, l, r, w, s), env) == Fill(VX, w)
    ensures Defined(Eval(r, env)) && Value(Eval(r, env), V0) == n ==>
              var v, u := Eval(l, env), Eval(Shift(op, l, r, w, s), env);
              |u| == w && forall i :: 0 <= i < w ==>
                u[i] == if op == ShLeft then (if i < n then V0 else v[i - n])
                        else if i + n < w then v[i + n]
                        else if op == ShArith && s then v[w - 1] else V0
  {
    hide Eval, Value;
    ValueOfShift(op, l, r, w, s, env);
    if Defined(Eval(r, env)) && Value(Eval(r, env), V0) == n {
      ShiftedBits(op, Eval(l, env), n, s, w);
    }
  }

  // ----- concatenation, extension, selection -----

  lemma {:induction false} CatPrefix(vs: seq<Vec>, k: nat)
    requires k <= |vs|
    ensures Cat(vs) == Cat(vs[k..]) + Cat(vs[..k])
    decreases k
  {
    if k == 0 {
      assert vs[0..] == vs && vs[..0] == [];
    } else {
      CatPrefix(vs[1..], k - 1);
      assert vs[1..][k - 1..] == vs[k..] && vs[1..][..k - 1] == vs[..k][1..];
    }
  }

  lemma CatOne(v: Vec)
    ensures Cat([v]) == v
  {
    assert [v][1..] == [];
  }

  lemma ValueOfConcat(ps: seq<Expr>, n: nat, s: bool, two: bool, env: Env)
    ensures Eval(Concat(ps, n, s, two), env) == Replicate(Cat(EvalAll(ps, env)), n)
  {
    hide Replicate, Cat;
  }

  lemma {:induction false} EvalAllSnoc(ps: seq<Expr>, last: Expr, env: Env)
    ensures EvalAll(ps + [last], env) == EvalAll(ps, env) + [Eval(last, env)]
  {
    hide Eval;
    if ps == [] {
      assert ps + [last] == [last] && [last][1..] == [];
    } else {
      EvalAllSnoc(ps[1..], last, env);
      assert (ps + [last])[1..] == ps[1..] + [last];
    }
  }

  lemma RemainderBelow(i: nat, d: nat)
    requires 0 < d <= i
    ensures (i - d) % d == i % d
  {
    MulDistrib(d, i / d, 1);
    ModUnique(i - d, d, i / d - 1, i % d);
  }

  lemma {:induction false} Repeated(v: Vec, n: nat)
    ensures |Replicate(v, n)| == n * |v|
    ensures forall i :: 0 <= i < n * |v| ==> |v| > 0 && Replicate(v, n)[i] == v[i % |v|]
  {
    if n > 0 {
      Repeated(v, n - 1);
      MulDistrib(|v|, n, 1);
      MulCommutes(n, |v|);
      MulCommutes(n - 1, |v|);
      if |v| > 0 {
        forall i | 0 <= i < n * |v|
          ensures Replicate(v, n)[i] == v[i % |v|]
        {
          if i >= |v| {
            RemainderBelow(i, |v|);
          } else {
            ModUnique(i, |v|, 0, i);
          }
        }
      }
    }
  }

  /** The last operand of a concatenation fills the low bits, the others the bits above; repeated, the
      whole comes again every so many bits. */
  lemma ConcatMeaning(ps: seq<Expr>, last: Expr, s: bool, two: bool, n: nat, env: Env)
    ensures Eval(Concat(ps + [last], 1, s, two), env) == Eval(last, env) + Eval(Concat(ps, 1, s, two), env)
    ensures var once, v := Eval(Concat(ps, 1, s, two), env), Eval(Concat(ps, n, s, two), env);
            |v| == n * |once| && forall i :: 0 <= i < |v| ==> |once| > 0 && v[i] == once[i % |once|]
  {
    hide Eval;
    ValueOfConcat(ps, 1, s, two, env);
    ValueOfConcat(ps, n, s, two, env);
    ValueOfConcat(ps + [last], 1, s, two, env);
    EvalAllSnoc(ps, last, env);
    var vs := EvalAll(ps, env);
    var us := vs + [Eval(last, env)];
    CatPrefix(us, |vs|);
    assert us[|vs|..] == [Eval(last, env)] && us[..|vs|] == vs;
    CatOne(Eval(last, env));
    Repeated(Cat(vs), 1);
    Repeated(Cat(us), 1);
    assert Replicate(Cat(vs), 1) == Cat(vs) && Replicate(Cat(us), 1) == Cat(us);
    Repeated(Cat(vs), n);
  }

  /** Widening keeps the number, narrowing keeps the low bits; an unknown top bit is repeated when
      the node is signed. */
  lemma ExtendMeaning(x: Expr, w: nat, s: bool, env: Env)
    requires |Eval(x, env)| > 0
    ensures var v, r := Eval(x, env), Eval(Extend(x, w, s), env);
            && |r| == w
            && (w <= |v| ==> r == v[..w])
            && (w >= |v| ==> Num(r, s) == Num(v, s)
                             && forall i :: |v| <= i < w ==> r[i] == if s then v[|v| - 1] else V0)
  {
    var v, r := Eval(x, env), Eval(Extend(x, w, s), env);
    var pad := SignPad(v, s);
    assert r == ExtendVec(v, s, w);
    if w >= |v| {
      assert r == v + Fill(pad, w - |v|);
      ValueExtend(v, pad, w - |v|);
    }
  }

  lemma SelectedValue(v: Vec, p: nat, w: nat)
    requires Defined(v) && p + w <= |v|
    ensures Value(SelectVec(v, p, w), V0) == Value(v, V0) / Pow2(p) % Pow2(w)
  {
    var high := v[p..];
    assert SelectVec(v, p, w) == high[..w];
    ValueSplit(v, p, V0);
    ValueRange(v[..p]);
    ModUnique(Value(v, V0), Pow2(p), Value(high, V0), Value(v[..p], V0));
    ValueSplit(high, w, V0);
    ValueRange(high[..w]);
    ModUnique(Value(high, V0), Pow2(w), Value(high[w..], V0), Value(high[..w], V0));
  }

  /** A select inside its vector divides by 2^p and keeps w bits; outside its vector, or at a position
      that holds x or z, bits are x. */
  lemma SelectMeaning(x: Expr, b: Expr, w: nat, s: bool, env: Env)
    ensures var v, r := Eval(x, env), Eval(Select(x, b, w, s), env);
            && |r| == w
            && (!Defined(Eval(b, env)) ==> r == Fill(VX, w))
            && (Defined(Eval(b, env)) ==>
                  var p := Num(Eval(b, env), Sign(b));
                  && (forall i :: 0 <= i < w ==> r[i] == if 0 <= p + i < |v| then v[p + i] else VX)
                  && (Defined(v) && 0 <= p && p + w <= |v| ==> Value(r, V0) == Value(v, V0) / Pow2(p) % Pow2(w)))
  {
    hide Value, Num;
    var v := Eval(x, env);
    if Defined(Eval(b, env)) {
      var p := Num(Eval(b, env), Sign(b));
      var r := SelectVec(v, p, w);
      assert Eval(Select(x, b, w, s), env) == r;
      if Defined(v) && 0 <= p && p + w <= |v| {
        SelectedValue(v, p, w);
      }
    }
  }
}
