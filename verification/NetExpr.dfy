/** Elaborated expressions (qflow-org/iverilog/netlist.h:1924-4690) over vectors, and what
    they mean: the value of an expression as a function of the signals, after sections 5.1,
    5.2.1, 5.4 and 5.5 of IEEE 1364-2005. Reals, strings and power are left out. */
module NetExpr {
  import opened FourState
  import opened TwosComplement
  import opened Verinum

  datatype Option<T> = None | Some(value: T)

  datatype AddOp = OpPlus | OpMinus
  datatype BitsOp = BitAnd | BitOr | BitXor | BitXnor | BitNand | BitNor
  datatype CompOp = Lt | Le | Gt | Ge | Eq | Ne | CaseEq | CaseNe
  datatype LogicOp = LogAnd | LogOr
  datatype ShiftOp = ShLeft | ShRight | ShArith
  datatype UnaryOp = Pos | Neg | Abs | Inv
  datatype ReduceOp = LogNot | RedAnd | RedNand | RedOr | RedNor | RedXor | RedXnor

  datatype Expr =
    | Const(v: Num4)
    | Signal(id: nat, wid: nat, signed: bool, twoState: bool)
    | Add(addOp: AddOp, l: Expr, r: Expr, wid: nat, signed: bool)
    | Bits(bitsOp: BitsOp, l: Expr, r: Expr, wid: nat, signed: bool)
    | Mult(l: Expr, r: Expr, wid: nat, signed: bool)
    | Div(mod: bool, l: Expr, r: Expr, wid: nat, signed: bool)
    | Comp(compOp: CompOp, l: Expr, r: Expr)
    | Logic(logicOp: LogicOp, l: Expr, r: Expr)
    | Shift(shiftOp: ShiftOp, l: Expr, r: Expr, wid: nat, signed: bool)
    | Concat(parms: seq<Expr>, repeat: nat, signed: bool, twoState: bool)
    | Extend(x: Expr, wid: nat, signed: bool)
    | Select(x: Expr, base: Expr, wid: nat, signed: bool)
    | Ternary(cond: Expr, t: Expr, f: Expr, wid: nat, signed: bool)
    | Unary(unaryOp: UnaryOp, x: Expr, wid: nat, signed: bool)
    | Reduce(reduceOp: ReduceOp, x: Expr)

  // ----- static attributes -----

  function Width(e: Expr): nat
    decreases e, 1
  {
    match e
    case Const(v) => |v.bits|
    case Comp(_, _, _) => 1
    case Logic(_, _, _) => 1
    case Reduce(_, _) => 1
    case Concat(ps, n, _, _) => n * WidthSum(ps)
    case _ => e.wid
  }

  function WidthSum(es: seq<Expr>): nat
    decreases es, 0
  {
    if es == [] then 0 else Width(es[0]) + WidthSum(es[1..])
  }

  predicate Sign(e: Expr) {
    match e
    case Const(v) => v.hasSign
    case Comp(_, _, _) => false
    case Logic(_, _, _) => false
    case Reduce(_, _) => false
    case _ => e.signed
  }

  /** expr_type() == IVL_VT_BOOL: the expression is taken to hold no x or z bits. */
  predicate TwoState(e: Expr) {
    match e
    case Const(v) => |v.bits| > 0 && Defined(v.bits)
    case Signal(_, _, _, two) => two
    case Comp(op, l, r) => op == CaseEq || op == CaseNe || (TwoState(l) && TwoState(r))
    case Concat(_, _, _, two) => two
    case Extend(x, _, _) => TwoState(x)
    case Select(x, _, _, _) => TwoState(x)
    case Ternary(c, t, f, _, _) => TwoState(c) && TwoState(t) && TwoState(f)
    case Unary(_, x, _, _) => TwoState(x)
    case Reduce(_, x) => TwoState(x)
    case _ => false
  }

  predicate Sized(e: Expr) {
    e.Const? ==> e.v.hasLen
  }

  predicate Operand(e: Expr, w: nat, s: bool) {
    Width(e) == w && Sign(e) == s && Sized(e)
  }

  predicate Operands(l: Expr, r: Expr, w: nat, s: bool) {
    w > 0 && Operand(l, w, s) && Operand(r, w, s)
  }

  /** What elaboration establishes before folding: context-determined operands have the
      width and sign of their operator, and constants in such places are sized. */
  predicate WellFormed(e: Expr)
    decreases e, 1
  {
    match e
    case Const(_) => true
    case Signal(_, w, _, _) => w > 0
    case Add(_, l, r, w, s) => Operands(l, r, w, s) && WellFormed(l) && WellFormed(r)
    case Bits(_, l, r, w, s) => Operands(l, r, w, s) && WellFormed(l) && WellFormed(r)
    case Mult(l, r, w, s) => Operands(l, r, w, s) && WellFormed(l) && WellFormed(r)
    case Div(_, l, r, w, s) => Operands(l, r, w, s) && WellFormed(l) && WellFormed(r)
    case Comp(_, l, r) => Width(l) == Width(r) > 0 && Sign(l) == Sign(r) && WellFormed(l) && WellFormed(r)
    case Logic(_, l, r) => WellFormed(l) && WellFormed(r)
    case Shift(_, l, r, w, s) => 0 < w < UINT_MAX && Operand(l, w, s) && WellFormed(l) && WellFormed(r)
    case Concat(ps, _, _, _) => |ps| > 0 && AllWellFormed(ps)
    case Extend(x, w, _) => w > 0 && Width(x) > 0 && WellFormed(x)
    case Select(x, b, w, _) => w > 0 && WellFormed(x) && WellFormed(b)
    case Ternary(c, t, f, w, s) => Operands(t, f, w, s) && WellFormed(c) && WellFormed(t) && WellFormed(f)
    case Unary(_, x, w, s) => w > 0 && Operand(x, w, s) && WellFormed(x)
    case Reduce(_, x) => Width(x) > 0 && WellFormed(x)
  }

  predicate AllWellFormed(es: seq<Expr>)
    decreases es, 0
  {
    es == [] || (WellFormed(es[0]) && AllWellFormed(es[1..]))
  }

  // ----- operators on vectors -----

  function AddVec(op: AddOp, l: Vec, r: Vec, w: nat): (v: Vec)
    ensures |v| == w
  {
    if !Defined(l) || !Defined(r) then Fill(VX, w)
    else if op == OpPlus then Encode(Value(l, V0) + Value(r, V0), w)
    else Encode(Value(l, V0) - Value(r, V0), w)
  }

  function MultVec(l: Vec, r: Vec, w: nat): (v: Vec)
    ensures |v| == w
  {
    if !Defined(l) || !Defined(r) then Fill(VX, w) else Encode(Value(l, V0) * Value(r, V0), w)
  }

  /** Integer division truncated towards zero. */
  function Quotient(a: int, b: int): int
    requires b != 0
  {
    var q := Magnitude(a) / Magnitude(b);
    if (a < 0) == (b < 0) then q else -q
  }

  /** / and %: x for a zero divisor. */
  function DivVec(mod: bool, l: Vec, r: Vec, s: bool, w: nat): (v: Vec)
    ensures |v| == w
  {
    if !Defined(l) || !Defined(r) || Num(r, s) == 0 then Fill(VX, w)
    else
      var a, b := Num(l, s), Num(r, s);
      var q := Quotient(a, b);
      Encode(if mod then a - q * b else q, w)
  }

  function BitsBit(op: BitsOp, l: Bit, r: Bit): Bit {
    match op
    case BitAnd => And(l, r)
    case BitOr => Or(l, r)
    case BitXor => Xor(l, r)
    case BitXnor => Not(Xor(l, r))
    case BitNand => Not(And(l, r))
    case BitNor => Not(Or(l, r))
  }

  function BitsVec(op: BitsOp, l: Vec, r: Vec, w: nat): (v: Vec)
    ensures |v| == w
  {
    seq(w, i requires 0 <= i => BitsBit(op, At(l, i, V0), At(r, i, V0)))
  }

  /** Truth value of a vector: 1 if some bit is 1, 0 if all are 0, x otherwise. */
  function Logical(v: Vec): Bit {
    if exists i :: 0 <= i < |v| && v[i] == V1 then V1
    else if Defined(v) then V0
    else VX
  }

  function LogicBit(op: LogicOp, l: Bit, r: Bit): Bit {
    if op == LogAnd then And(l, r) else Or(l, r)
  }

  predicate Mismatch(l: Vec, r: Vec) {
    exists i :: 0 <= i < |l| && i < |r| && Known(l[i]) && Known(r[i]) && l[i] != r[i]
  }

  /** == on equal widths: 0 on a definite mismatch, else x if any bit is unknown. */
  function EqBit(l: Vec, r: Vec): Bit {
    if Mismatch(l, r) then V0
    else if Defined(l) && Defined(r) then V1
    else VX
  }

  function OrderBit(op: CompOp, a: int, b: int): Bit
    requires op in {Lt, Le, Gt, Ge}
  {
    match op
    case Lt => FromBool(a < b)
    case Le => FromBool(a <= b)
    case Gt => FromBool(a > b)
    case _ => FromBool(a >= b)
  }

  function CompBit(op: CompOp, l: Vec, r: Vec, signed: bool): Bit {
    match op
    case CaseEq => FromBool(l == r)
    case CaseNe => FromBool(l != r)
    case Eq => EqBit(l, r)
    case Ne => Not(EqBit(l, r))
    case _ =>
      if !Defined(l) || !Defined(r) then VX
      else OrderBit(op, Num(l, signed), Num(r, signed))
  }

  /** Shift by a defined amount; vacated bits are 0, or the sign under an arithmetic right shift. */
  function ShiftVec(op: ShiftOp, l: Vec, amount: nat, signed: bool, w: nat): (v: Vec)
    ensures |v| == w
  {
    if op == ShLeft then seq(w, i requires 0 <= i => if i < amount then V0 else At(l, i - amount, V0))
    else
      var pad := if op == ShArith then SignPad(l, signed) else V0;
      seq(w, i requires 0 <= i => At(l, i + amount, pad))
  }

  function ShiftBy(op: ShiftOp, l: Vec, r: Vec, signed: bool, w: nat): (v: Vec)
    ensures |v| == w
  {
    if !Defined(r) then Fill(VX, w)
    else
      ValueRange(r);
      ShiftVec(op, l, Value(r, V0), signed, w)
  }

  /** First vector most significant. */
  function Cat(vs: seq<Vec>): Vec {
    if vs == [] then [] else Cat(vs[1..]) + vs[0]
  }

  function Replicate(v: Vec, n: nat): (r: Vec)
    ensures |r| == n * |v|
  {
    if n == 0 then [] else
      var rest := Replicate(v, n - 1);
      assert n * |v| == (n - 1) * |v| + |v|;
      v + rest
  }

  function ExtendVec(v: Vec, signed: bool, w: nat): (r: Vec)
    ensures |r| == w
  {
    var pad := SignPad(v, signed);
    seq(w, i requires 0 <= i => At(v, i, pad))
  }

  /** Bits at position p and up; positions outside the vector read as x. */
  function SelectVec(v: Vec, p: int, w: nat): (r: Vec)
    ensures |r| == w
  {
    seq(w, i requires 0 <= i => if 0 <= p + i < |v| then v[p + i] else VX)
  }

  function SelectAt(v: Vec, base: Vec, baseSigned: bool, w: nat): (r: Vec)
    ensures |r| == w
  {
    if !Defined(base) then Fill(VX, w) else SelectVec(v, Num(base, baseSigned), w)
  }

  function BlendBit(t: Bit, f: Bit): Bit {
    if t == f then t else VX
  }

  function Blend(t: Vec, f: Vec): (v: Vec)
    ensures |v| == Max(|t|, |f|)
  {
    seq(Max(|t|, |f|), i requires 0 <= i => BlendBit(At(t, i, V0), At(f, i, V0)))
  }

  function UnaryVec(op: UnaryOp, v: Vec, signed: bool): (r: Vec)
    ensures |r| == |v|
  {
    match op
    case Pos => v
    case Neg => if Defined(v) then Encode(-Value(v, V0), |v|) else Fill(VX, |v|)
    case Abs =>
      if !Defined(v) then Fill(VX, |v|)
      else if Num(v, signed) < 0 then Encode(-Value(v, V0), |v|)
      else v
    case Inv => NotVec(v)
  }

  function Ones(v: Vec): nat {
    if |v| == 0 then 0 else Ones(v[1..]) + BitVal(v[0])
  }

  function AllOnes(v: Vec): Bit {
    if exists i :: 0 <= i < |v| && v[i] == V0 then V0
    else if Defined(v) then V1
    else VX
  }

  function Parity(v: Vec): Bit {
    if !Defined(v) then VX else FromBool(Ones(v) % 2 == 1)
  }

  function ReduceBit(op: ReduceOp, v: Vec): Bit {
    match op
    case LogNot => Not(Logical(v))
    case RedOr => Logical(v)
    case RedNor => Not(Logical(v))
    case RedAnd => AllOnes(v)
    case RedNand => Not(AllOnes(v))
    case RedXor => Parity(v)
    case RedXnor => Not(Parity(v))
  }

  // ----- meaning -----

  type Env = nat -> Vec

  /** The signals hold vectors of their declared width, without x or z when two-state. */
  ghost predicate WellTyped(e: Expr, env: Env)
    decreases e, 1
  {
    match e
    case Const(_) => true
    case Signal(id, w, _, two) => |env(id)| == w && (two ==> Defined(env(id)))
    case Add(_, l, r, _, _) => WellTyped(l, env) && WellTyped(r, env)
    case Bits(_, l, r, _, _) => WellTyped(l, env) && WellTyped(r, env)
    case Mult(l, r, _, _) => WellTyped(l, env) && WellTyped(r, env)
    case Div(_, l, r, _, _) => WellTyped(l, env) && WellTyped(r, env)
    case Comp(_, l, r) => WellTyped(l, env) && WellTyped(r, env)
    case Logic(_, l, r) => WellTyped(l, env) && WellTyped(r, env)
    case Shift(_, l, r, _, _) => WellTyped(l, env) && WellTyped(r, env)
    case Concat(ps, _, _, _) => AllWellTyped(ps, env)
    case Extend(x, _, _) => WellTyped(x, env)
    case Select(x, b, _, _) => WellTyped(x, env) && WellTyped(b, env)
    case Ternary(c, t, f, _, _) => WellTyped(c, env) && WellTyped(t, env) && WellTyped(f, env)
    case Unary(_, x, _, _) => WellTyped(x, env)
    case Reduce(_, x) => WellTyped(x, env)
  }

  ghost predicate AllWellTyped(es: seq<Expr>, env: Env)
    decreases es, 0
  {
    es == [] || (WellTyped(es[0], env) && AllWellTyped(es[1..], env))
  }

  function Eval(e: Expr, env: Env): Vec
    decreases e, 1
  {
    match e
    case Const(v) => v.bits
    case Signal(id, _, _, _) => env(id)
    case Add(op, l, r, w, _) => AddVec(op, Eval(l, env), Eval(r, env), w)
    case Bits(op, l, r, w, _) => BitsVec(op, Eval(l, env), Eval(r, env), w)
    case Mult(l, r, w, _) => MultVec(Eval(l, env), Eval(r, env), w)
    case Div(mod, l, r, w, s) => DivVec(mod, Eval(l, env), Eval(r, env), s, w)
    case Comp(op, l, r) => [CompBit(op, Eval(l, env), Eval(r, env), Sign(l) && Sign(r))]
    case Logic(op, l, r) => [LogicBit(op, Logical(Eval(l, env)), Logical(Eval(r, env)))]
    case Shift(op, l, r, w, s) => ShiftBy(op, Eval(l, env), Eval(r, env), s, w)
    case Concat(ps, n, _, _) => Replicate(Cat(EvalAll(ps, env)), n)
    case Extend(x, w, s) => ExtendVec(Eval(x, env), s, w)
    case Select(x, b, w, _) => SelectAt(Eval(x, env), Eval(b, env), Sign(b), w)
    case Ternary(c, t, f, _, _) =>
      (match Logical(Eval(c, env))
       case V1 => Eval(t, env)
       case V0 => Eval(f, env)
       case _ => Blend(Eval(t, env), Eval(f, env)))
    case Unary(op, x, _, s) => UnaryVec(op, Eval(x, env), s)
    case Reduce(op, x) => [ReduceBit(op, Eval(x, env))]
  }

  function EvalAll(es: seq<Expr>, env: Env): (vs: seq<Vec>)
    ensures |vs| == |es|
    decreases es, 0
  {
    if es == [] then [] else [Eval(es[0], env)] + EvalAll(es[1..], env)
  }

  /** An expression evaluates to a vector of its width. */
  lemma {:induction false} EvalWidth(e: Expr, env: Env)
    requires WellFormed(e) && WellTyped(e, env)
    ensures |Eval(e, env)| == Width(e)
    decreases e, 1
  {
    match e
    case Concat(ps, n, _, _) => EvalAllWidth(ps, env);
    case Ternary(c, t, f, _, _) =>
      EvalWidth(t, env);
      EvalWidth(f, env);
    case Unary(op, x, _, _) => EvalWidth(x, env);
    case _ =>
  }

  lemma {:induction false} EvalAllWidth(es: seq<Expr>, env: Env)
    requires AllWellFormed(es) && AllWellTyped(es, env)
    ensures |Cat(EvalAll(es, env))| == WidthSum(es)
    decreases es, 0
  {
    if es != [] {
      EvalWidth(es[0], env);
      EvalAllWidth(es[1..], env);
      assert EvalAll(es, env)[1..] == EvalAll(es[1..], env);
    }
  }
}
