/** The folder over expression objects, in place: eval_tree replaces the operands of a node
    and returns a replacement for the node itself, or null when it stays
    (qflow-org/iverilog/eval_tree.cc:92-98, 134-196, 1116-1491; netmisc.cc:1035-1045). */
module NetNode {
  import opened FourState
  import opened TwosComplement
  import opened Verinum
  import opened NetExpr
  import opened Folding
  import opened EvalLoops
  import Division

  /** A node without its operands. */
  datatype Kind =
    | KConst(v: Num4)
    | KSignal(id: nat, wid: nat, signed: bool, twoState: bool)
    | KAdd(addOp: AddOp, wid: nat, signed: bool)
    | KBits(bitsOp: BitsOp, wid: nat, signed: bool)
    | KMult(wid: nat, signed: bool)
    | KDiv(mod: bool, wid: nat, signed: bool)
    | KComp(compOp: CompOp)
    | KLogic(logicOp: LogicOp)
    | KShift(shiftOp: ShiftOp, wid: nat, signed: bool)
    | KConcat(repeat: nat, signed: bool, twoState: bool)
    | KExtend(wid: nat, signed: bool)
    | KSelect(wid: nat, signed: bool)
    | KTernary(wid: nat, signed: bool)
    | KUnary(unaryOp: UnaryOp, wid: nat, signed: bool)
    | KReduce(reduceOp: ReduceOp)

  predicate Arity(k: Kind, n: nat) {
    match k
    case KConst(_) => n == 0
    case KSignal(_, _, _, _) => n == 0
    case KConcat(_, _, _) => true
    case KExtend(_, _) => n == 1
    case KUnary(_, _, _) => n == 1
    case KReduce(_) => n == 1
    case KTernary(_, _) => n == 3
    case _ => n == 2
  }

  function Build(k: Kind, ts: seq<Expr>): Expr
    requires Arity(k, |ts|)
  {
    match k
    case KConst(v) => Const(v)
    case KSignal(id, w, s, t) => Signal(id, w, s, t)
    case KAdd(op, w, s) => Add(op, ts[0], ts[1], w, s)
    case KBits(op, w, s) => Bits(op, ts[0], ts[1], w, s)
    case KMult(w, s) => Mult(ts[0], ts[1], w, s)
    case KDiv(mod, w, s) => Div(mod, ts[0], ts[1], w, s)
    case KComp(op) => Comp(op, ts[0], ts[1])
    case KLogic(op) => Logic(op, ts[0], ts[1])
    case KShift(op, w, s) => Shift(op, ts[0], ts[1], w, s)
    case KConcat(n, s, t) => Concat(ts, n, s, t)
    case KExtend(w, s) => Extend(ts[0], w, s)
    case KSelect(w, s) => Select(ts[0], ts[1], w, s)
    case KTernary(w, s) => Ternary(ts[0], ts[1], ts[2], w, s)
    case KUnary(op, w, s) => Unary(op, ts[0], w, s)
    case KReduce(op) => Reduce(op, ts[0])
  }

  /** What folding makes of a node whose operands are folded already. */
  function FoldNode(k: Kind, ts: seq<Expr>): Expr
    requires Arity(k, |ts|)
  {
    match k
    case KAdd(op, w, s) => FoldAdd(op, ts[0], ts[1], w, s)
    case KBits(op, w, s) => FoldBits(op, ts[0], ts[1], w, s)
    case KMult(w, s) => FoldMult(ts[0], ts[1], w, s)
    case KDiv(mod, w, s) => FoldDiv(mod, ts[0], ts[1], w, s)
    case KComp(op) => FoldComp(op, ts[0], ts[1])
    case KLogic(op) => FoldLogic(op, ts[0], ts[1])
    case KShift(op, w, s) => FoldShift(op, ts[0], ts[1], w, s)
    case KConcat(n, s, t) => FoldConcat(ts, n, s, t)
    case KExtend(w, s) => FoldExtend(ts[0], w, s)
    case KSelect(w, s) => FoldSelect(ts[0], ts[1], w, s)
    case KUnary(op, w, s) => FoldUnary(op, ts[0], w, s)
    case KReduce(op) => FoldReduce(op, ts[0])
    case _ => Build(k, ts)
  }

  method EvalDiv(mod: bool, lv: Num4, rv: Num4) returns (v: Num4)
    requires |lv.bits| == |rv.bits| > 0 && lv.hasLen && rv.hasLen && lv.hasSign == rv.hasSign
    ensures v == Num4(DivVec(mod, lv.bits, rv.bits, lv.hasSign, |lv.bits|), true, lv.hasSign)
  {
    var bits := Division.Divide(mod, lv, rv);
    v := Num4(bits, true, lv.hasSign);
  }

  /** The four equality operators, on operands that elaboration padded to one width. */
  method EvalEquality(op: CompOp, lv: Num4, rv: Num4) returns (v: Num4)
    requires op in {Eq, Ne, CaseEq, CaseNe} && |lv.bits| == |rv.bits| > 0
    ensures v == OneBit(CompBit(op, lv.bits, rv.bits, BothSigned(lv, rv)))
  {
    EqExactness(lv, rv);
    CaseEqExactness(lv, rv);
    if op == Eq || op == Ne {
      v := EvalEqEq(op == Ne, lv, rv);
    } else {
      v := EvalEqEqEq(op == CaseNe, lv, rv);
    }
  }

  /** eval_arguments_ of the two-operand nodes: the constant, if there is one. */
  method EvalDouble(k: Kind, lo: Operand, ro: Operand, ghost l: Expr, ghost r: Expr) returns (res: Option<Num4>)
    requires Arity(k, 2) && !k.KConcat? && lo == View(l) && ro == View(r)
    requires WellFormed(Build(k, [l, r]))
    ensures res.Some? ==> FoldNode(k, [l, r]) == Const(res.value)
    ensures res.None? && !k.KAdd? ==> FoldNode(k, [l, r]) == Build(k, [l, r])
    ensures res.None? ==> !(l.Const? && r.Const?) || (k.KBits? && !HasFold(k.bitsOp))
  {
    if k.KComp? && k.compOp in {Lt, Le, Gt, Ge} {
      res := EvalOrder(k.compOp, lo, ro, l, r);
      return;
    }
    assert k.KComp? ==> k.compOp == Eq || k.compOp == Ne || k.compOp == CaseEq || k.compOp == CaseNe;
    if lo.value.None? || ro.value.None? || (k.KBits? && !HasFold(k.bitsOp)) {
      return None;
    }
    var lv, rv := lo.value.value, ro.value.value;
    var v;
    match k {
      case KAdd(op, w, _) => v := EvalAdd(op, lv, rv, w);
      case KBits(op, w, s) => v := EvalBits(op, lv, rv, w, s);
      case KMult(w, _) => v := EvalMult(lv, rv, w);
      case KDiv(mod, w, _) => v := EvalDiv(mod, lv, rv);
      case KLogic(op) => v := EvalLogic(op, lv, rv);
      case KShift(op, w, s) => v := EvalShift(op, lv, rv, w, s);
      case KSelect(w, s) => v := EvalSelect(lv, rv, w, s);
      case KComp(op) => v := EvalEquality(op, lv, rv);
    }
    res := Some(v);
  }

  /** eval_arguments_ of the one-operand nodes. */
  method EvalSingle(k: Kind, xo: Operand, ghost x: Expr) returns (res: Option<Num4>)
    requires (k.KExtend? || k.KUnary? || k.KReduce?) && xo == View(x) && WellFormed(Build(k, [x]))
    ensures FoldNode(k, [x]) == if res.Some? then Const(res.value) else Build(k, [x])
    ensures res.None? ==> !x.Const?
  {
    if xo.value.None? {
      return None;
    }
    var v;
    match k {
      case KExtend(w, s) => v := EvalExtend(xo.value.value, w, s);
      case KUnary(op, _, _) => v := EvalUnary(op, xo.value.value);
      case KReduce(op) => v := EvalReduce(op, xo.value.value);
    }
    res := Some(v);
  }

  /** expr_type, expr_width and has_sign of a node, from those of its operands. */
  method Attributes(k: Kind, looks: seq<Operand>, ghost ts: seq<Expr>) returns (o: Operand)
    requires Arity(k, |ts|) && |looks| == |ts| && forall j :: 0 <= j < |ts| ==> looks[j] == View(ts[j])
    ensures o == View(Build(k, ts))
  {
    match k
    case KConst(v) => o := Operand(Some(v), |v.bits| > 0 && Defined(v.bits), |v.bits|, v.hasSign);
    case KSignal(_, w, s, t) => o := Operand(None, t, w, s);
    case KAdd(_, w, s) => o := Operand(None, false, w, s);
    case KBits(_, w, s) => o := Operand(None, false, w, s);
    case KDiv(_, w, s) => o := Operand(None, false, w, s);
    case KMult(w, s) => o := Operand(None, false, w, s);
    case KShift(_, w, s) => o := Operand(None, false, w, s);
    case KLogic(_) => o := Operand(None, false, 1, false);
    case KComp(op) =>
      o := Operand(None, op == CaseEq || op == CaseNe || (looks[0].twoState && looks[1].twoState), 1, false);
    case KConcat(n, s, t) =>
      var total := 0;
      for i := 0 to |looks|
        invariant total == WidthSum(ts[..i])
      {
        WidthSumAppend(ts[..i], ts[i]);
        assert ts[..i + 1] == ts[..i] + [ts[i]];
        total := total + looks[i].wid;
      }
      assert ts[..|looks|] == ts;
      o := Operand(None, t, n * total, s);
    case KExtend(w, s) => o := Operand(None, looks[0].twoState, w, s);
    case KSelect(w, s) => o := Operand(None, looks[0].twoState, w, s);
    case KTernary(w, s) => o := Operand(None, looks[0].twoState && looks[1].twoState && looks[2].twoState, w, s);
    case KUnary(_, w, s) => o := Operand(None, looks[0].twoState, w, s);
    case KReduce(_) => o := Operand(None, looks[0].twoState, 1, false);
  }

  lemma DoubleOperands(k: Kind, l: Expr, r: Expr)
    requires Arity(k, 2) && !k.KConcat? && WellFormed(Build(k, [l, r]))
    ensures WellFormed(l) && WellFormed(r) && l < Build(k, [l, r]) && r < Build(k, [l, r])
  {
  }

  lemma DoubleFold(k: Kind, l: Expr, r: Expr)
    requires Arity(k, 2) && !k.KConcat?
    ensures Fold(Build(k, [l, r])) == FoldNode(k, [Fold(l), Fold(r)])
  {
    hide FoldAdd, FoldBits, FoldMult, FoldDiv, FoldComp, FoldLogic, FoldShift, FoldSelect;
  }

  lemma DoubleShape(k: Kind, l: Expr, r: Expr, l2: Expr, r2: Expr)
    requires Arity(k, 2) && !k.KConcat? && WellFormed(Build(k, [l, r])) && SameShape(l2, l) && SameShape(r2, r)
    ensures WellFormed(Build(k, [l2, r2]))
  {
  }

  lemma FoldOfDouble(k: Kind, l: Expr, r: Expr)
    requires Arity(k, 2) && !k.KConcat? && WellFormed(Build(k, [l, r]))
    ensures WellFormed(l) && WellFormed(r) && l < Build(k, [l, r]) && r < Build(k, [l, r])
    ensures Fold(Build(k, [l, r])) == FoldNode(k, [Fold(l), Fold(r)])
    ensures WellFormed(Build(k, [Fold(l), Fold(r)]))
  {
    hide *;
    DoubleOperands(k, l, r);
    DoubleFold(k, l, r);
    FoldShape(l);
    FoldShape(r);
    DoubleShape(k, l, r, Fold(l), Fold(r));
  }

  lemma FoldOfSingle(k: Kind, x: Expr)
    requires (k.KExtend? || k.KUnary? || k.KReduce?) && WellFormed(Build(k, [x]))
    ensures WellFormed(x) && x < Build(k, [x])
    ensures Fold(Build(k, [x])) == FoldNode(k, [Fold(x)]) && WellFormed(Build(k, [Fold(x)]))
  {
    FoldShape(x);
  }

  lemma {:induction false} AllWellFormedAt(es: seq<Expr>, i: nat)
    requires AllWellFormed(es) && i < |es|
    ensures WellFormed(es[i])
  {
    if i > 0 {
      AllWellFormedAt(es[1..], i - 1);
    }
  }

  lemma {:induction false} FoldAllPointwise(es: seq<Expr>, fs: seq<Expr>)
    requires |fs| == |es| && forall i :: 0 <= i < |es| ==> fs[i] == Fold(es[i])
    ensures fs == FoldAll(es)
  {
    if es != [] {
      FoldAllPointwise(es[1..], fs[1..]);
    }
  }

  /** A constant resized to the width of its place: padded, or cut and then sized. */
  function ResizeConst(v: Num4, w: nat): Num4 {
    if |v.bits| < w then CastToWidth(v, w).(hasLen := v.hasLen)
    else if |v.bits| > w then CastToWidth(v, w)
    else v
  }

  /** What eval_expr makes of a folded tree for a context of this width, none when not positive. */
  function InContext(e: Expr, contextWidth: int): Expr {
    if contextWidth > 0 && e.Const? then Const(ResizeConst(e.v, contextWidth)) else e
  }

  lemma ResizeKeeps(v: Num4, w: nat)
    ensures |ResizeConst(v, w).bits| == w && ResizeConst(v, w).hasSign == v.hasSign
    ensures Defined(v.bits) && |v.bits| > 0 ==> ResizeConst(v, w).bits == Encode(IntOf(v), w)
    ensures Defined(v.bits) && 0 < |v.bits| <= w ==> IntOf(ResizeConst(v, w)) == IntOf(v)
  {
    if Defined(v.bits) {
      CastKeepsValue(v, w);
      EncodeOfValue(v.bits, SignBit(v));
    }
  }

  /** Folding for a context keeps the meaning: a constant has the integer of the tree, to as many
      bits as the context gives it, and all of it when they are enough. */
  lemma FoldedInContext(e: Expr, env: Env, contextWidth: int)
    requires WellFormed(e) && WellTyped(e, env) && Safe(e, env)
    ensures var v := Eval(e, env);
            var r := Eval(InContext(Fold(e), contextWidth), env);
            if contextWidth > 0 && Fold(e).Const? then
              && |r| == contextWidth
              && (Defined(v) && |v| > 0 ==> r == Encode(Num(v, Sign(e)), contextWidth))
              && (Defined(v) && 0 < |v| <= contextWidth ==> Num(r, Sign(e)) == Num(v, Sign(e)))
            else r == v
  {
    hide Num, Encode, Value;
    FoldSound(e, env);
    FoldShape(e);
    if contextWidth > 0 && Fold(e).Const? {
      ResizeKeeps(Fold(e).v, contextWidth);
    }
  }

  class Node {
    var kind: Kind
    var kids: seq<Node>
    ghost var parts: seq<Expr>
    ghost var repr: set<object>

    /** A tree: operands own disjoint sets of objects, none of which is this node. */
    ghost predicate Valid()
      reads this, repr
      decreases repr
    {
      && this in repr
      && |parts| == |kids| && Arity(kind, |kids|)
      && (forall i :: 0 <= i < |kids| ==> kids[i] in repr && kids[i].repr <= repr && this !in kids[i].repr)
      && (forall i :: 0 <= i < |kids| ==> kids[i].Valid() && kids[i].Tree() == parts[i])
      && (forall i, j :: 0 <= i < j < |kids| ==> kids[i].repr !! kids[j].repr)
    }

    ghost function Tree(): Expr
      reads this
      requires Arity(kind, |parts|)
    {
      Build(kind, parts)
    }

    constructor Leaf(k: Kind)
      requires Arity(k, 0)
      ensures Valid() && fresh(repr) && Tree() == Build(k, [])
    {
      kind, kids, parts, repr := k, [], [], {this};
    }

    constructor Make(k: Kind, ks: seq<Node>, ghost ts: seq<Expr>, ghost r: set<object>)
      requires Arity(k, |ks|) && |ts| == |ks|
      requires forall i :: 0 <= i < |ks| ==> ks[i] in r && ks[i].Valid() && ks[i].repr <= r && ks[i].Tree() == ts[i]
      requires forall i, j :: 0 <= i < j < |ks| ==> ks[i].repr !! ks[j].repr
      ensures Valid() && kind == k && parts == ts && repr == r + {this}
    {
      kind, kids, parts, repr := k, ks, ts, r + {this};
    }

    /** dup_expr: a deep copy that shares nothing. */
    method Dup() returns (copy: Node)
      requires Valid()
      ensures copy.Valid() && fresh(copy.repr) && copy.Tree() == Tree()
      decreases repr
    {
      var copies: seq<Node> := [];
      ghost var owned: set<object> := {};
      for i := 0 to |kids|
        invariant |copies| == i && fresh(owned)
        invariant forall j :: 0 <= j < i ==> copies[j] in owned && copies[j].Valid() && copies[j].repr <= owned
        invariant forall j :: 0 <= j < i ==> copies[j].Tree() == parts[j]
        invariant forall j, k :: 0 <= j < k < i ==> copies[j].repr !! copies[k].repr
      {
        var c := kids[i].Dup();
        copies := copies + [c];
        owned := owned + c.repr;
      }
      copy := new Node.Make(kind, copies, parts, owned);
    }

    /** eval_expr: evaluate, take the replacement if any, and resize a constant. */
    method EvalExpr(contextWidth: int) returns (r: Node)
      requires Valid() && WellFormed(Tree())
      modifies repr
      ensures r.Valid() && fresh(r.repr - old(repr))
      ensures r.Tree() == InContext(Fold(old(Tree())), contextWidth)
      decreases Tree(), 3
    {
      var tmp := EvalTree();
      r := if tmp != null then tmp else this;
      if contextWidth <= 0 || !r.kind.KConst? {
        return;
      }
      var v := r.kind.v;
      if |v.bits| < contextWidth {
        r := new Node.Leaf(KConst(CastToWidth(v, contextWidth).(hasLen := v.hasLen)));
      } else if |v.bits| > contextWidth {
        r := new Node.Leaf(KConst(CastToWidth(v, contextWidth)));
      }
    }

    /** eval_expr on operand i, without a context. */
    method EvalKid(i: nat, ghost bound: Expr)
      requires Valid() && i < |kids| && parts[i] < bound && WellFormed(parts[i])
      modifies repr
      ensures Valid() && fresh(repr - old(repr)) && kind == old(kind)
      ensures parts == old(parts)[i := Fold(old(parts[i]))]
      decreases bound, 0, 0
    {
      var kid := kids[i].EvalExpr(-1);
      Adopt(i, kid);
    }

    /** Put a tree in place of operand i, whatever became of the old one. */
    method Adopt(i: nat, kid: Node)
      requires this in repr && |parts| == |kids| && Arity(kind, |kids|) && i < |kids|
      requires forall k :: 0 <= k < |kids| && k != i ==>
                 kids[k] in repr && kids[k].repr <= repr && this !in kids[k].repr
      requires forall k :: 0 <= k < |kids| && k != i ==> kids[k].Valid() && kids[k].Tree() == parts[k]
      requires forall k, l :: 0 <= k < l < |kids| && k != i && l != i ==> kids[k].repr !! kids[l].repr
      requires kid.Valid() && this !in kid.repr
      requires forall k :: 0 <= k < |kids| && k != i ==> kids[k].repr !! kid.repr
      modifies this
      ensures Valid() && kind == old(kind) && repr == old(repr) + kid.repr
      ensures parts == old(parts)[i := old(kid.Tree())]
    {
      kids := kids[i := kid];
      parts := parts[i := kid.Tree()];
      repr := repr + kid.repr;
    }

    /** eval_expr on the operands from number `from` on; a constant evaluates to itself. */
    method EvalFrom(from: nat, ghost bound: Expr)
      requires Valid() && from <= |kids|
      requires forall i :: from <= i < |parts| ==> parts[i] < bound && WellFormed(parts[i])
      modifies repr
      ensures Valid() && fresh(repr - old(repr)) && kind == old(kind) && |parts| == |old(parts)|
      ensures forall i :: 0 <= i < |parts| ==> parts[i] == if i < from then old(parts)[i] else Fold(old(parts)[i])
      decreases bound, 0, 1
    {
      ghost var ps := parts;
      for i := from to |kids|
        invariant Valid() && fresh(repr - old(repr)) && kind == old(kind) && |kids| == |ps|
        invariant forall j :: 0 <= j < |ps| ==> parts[j] == if from <= j < i then Fold(ps[j]) else ps[j]
      {
        if !kids[i].kind.KConst? {
          EvalKid(i, bound);
        }
      }
    }

    /** What an operand shows to its parent: expr_type, expr_width, has_sign and any constant. */
    method Look() returns (o: Operand)
      requires Valid()
      ensures o == View(Tree())
      decreases repr
    {
      var looks: seq<Operand> := [];
      for i := 0 to |kids|
        invariant |looks| == i && forall j :: 0 <= j < i ==> looks[j] == View(parts[j])
      {
        var l := kids[i].Look();
        looks := looks + [l];
      }
      o := Attributes(kind, looks, parts);
    }

    method EvalTree() returns (res: Node?)
      requires Valid() && WellFormed(Tree())
      modifies repr
      ensures Valid() && fresh(repr - old(repr))
      ensures res == null ==> Tree() == Fold(old(Tree()))
      ensures res != null ==> res.Valid() && fresh(res.repr) && res.Tree() == Fold(old(Tree()))
      decreases Tree(), 2
    {
      match kind
      case KConst(_) => res := null;
      case KSignal(_, _, _, _) => res := null;
      case KConcat(_, _, _) => res := EvalConcatNode(Tree());
      case KTernary(_, _) => res := EvalTernaryNode(Tree());
      case KExtend(_, _) => res := EvalSingleNode(Tree());
      case KUnary(_, _, _) => res := EvalSingleNode(Tree());
      case KReduce(_) => res := EvalSingleNode(Tree());
      case _ => res := EvalDoubleNode(Tree());
    }

    method EvalSingleNode(ghost t: Expr) returns (res: Node?)
      requires kind.KExtend? || kind.KUnary? || kind.KReduce?
      requires Valid() && Tree() == t && WellFormed(t)
      modifies repr
      ensures Valid() && fresh(repr - old(repr))
      ensures res == null ==> Tree() == Fold(t)
      ensures res != null ==> res.Valid() && fresh(res.repr) && res.Tree() == Fold(t)
      decreases t, 1
    {
      ghost var x := parts[0];
      assert parts == [x];
      FoldOfSingle(kind, x);
      EvalFrom(0, t);
      assert parts == [Fold(x)];
      var v := ComputeSingle(Fold(x));
      res := null;
      if v.Some? {
        res := new Node.Leaf(KConst(v.value));
      }
    }

    method ComputeSingle(ghost x: Expr) returns (v: Option<Num4>)
      requires (kind.KExtend? || kind.KUnary? || kind.KReduce?) && Valid() && parts == [x]
          && WellFormed(Build(kind, [x]))
      ensures FoldNode(kind, [x]) == if v.Some? then Const(v.value) else Build(kind, [x])
    {
      var xo := kids[0].Look();
      v := EvalSingle(kind, xo, x);
    }

    method EvalDoubleNode(ghost t: Expr) returns (res: Node?)
      requires Arity(kind, 2) && !kind.KConcat?
      requires Valid() && Tree() == t && WellFormed(t)
      modifies repr
      ensures Valid() && fresh(repr - old(repr))
      ensures res == null ==> Tree() == Fold(t)
      ensures res != null ==> res.Valid() && fresh(res.repr) && res.Tree() == Fold(t)
      decreases t, 1
    {
      ghost var l, r := parts[0], parts[1];
      assert parts == [l, r];
      FoldOfDouble(kind, l, r);
      EvalFrom(0, t);
      assert parts == [Fold(l), Fold(r)];
      res := ReplaceDouble(Fold(l), Fold(r));
    }

    /** Both operands are folded: compute a constant, or combine two constants of an addition. */
    method ReplaceDouble(ghost l: Expr, ghost r: Expr) returns (res: Node?)
      requires Arity(kind, 2) && !kind.KConcat?
      requires Valid() && parts == [l, r] && WellFormed(Build(kind, [l, r]))
      modifies repr
      ensures Valid() && fresh(repr - old(repr)) && kind == old(kind)
      ensures res == null ==> Tree() == FoldNode(kind, [l, r])
      ensures res != null ==> res.Valid() && fresh(res.repr) && res.Tree() == FoldNode(kind, [l, r])
    {
      var v := ComputeDouble(l, r);
      res := null;
      if v.Some? {
        res := new Node.Leaf(KConst(v.value));
      } else if kind.KAdd? {
        CombineConstants(l, r);
      }
    }

    method ComputeDouble(ghost l: Expr, ghost r: Expr) returns (v: Option<Num4>)
      requires Arity(kind, 2) && !kind.KConcat?
      requires Valid() && parts == [l, r] && WellFormed(Build(kind, [l, r]))
      ensures v.Some? ==> FoldNode(kind, [l, r]) == Const(v.value)
      ensures v.None? && !kind.KAdd? ==> FoldNode(kind, [l, r]) == Build(kind, [l, r])
      ensures v.None? && kind.KAdd? ==> !(l.Const? && r.Const?)
    {
      var lo := kids[0].Look();
      var ro := kids[1].Look();
      v := EvalDouble(kind, lo, ro, l, r);
    }

    /** (a + c1) - c2 becomes a + c. */
    method CombineConstants(ghost l: Expr, ghost r: Expr)
      requires Valid() && kind.KAdd? && parts == [l, r] && WellFormed(Build(kind, [l, r])) && !(l.Const? && r.Const?)
      modifies repr
      ensures Valid() && fresh(repr - old(repr)) && kind == old(kind)
      ensures Tree() == FoldAdd(kind.addOp, l, r, kind.wid, kind.signed)
    {
      hide AddVec;
      var se := kids[0];
      if se.kind.KAdd? {
        assert l == Add(se.kind.addOp, se.parts[0], se.parts[1], se.kind.wid, se.kind.signed);
        var se1 := se.kids[1];
        if se1.kind.KConst? && kids[1].kind.KConst? {
          assert l.r == Const(se1.kind.v) && r == Const(kids[1].kind.v);
          ghost var left := l.l;
          var val := EvalAdd(if kind.addOp == se.kind.addOp then OpPlus else OpMinus,
                             kids[1].kind.v, se1.kind.v, kind.wid);
          Rebuild(val, left);
        }
      }
    }

    /** left_ = se->left_->dup_expr(); right_ = the new constant. */
    method Rebuild(val: Num4, ghost left: Expr)
      requires Valid() && kind.KAdd? && kids[0].kind.KAdd? && |kids[0].kids| == 2 && kids[0].kids[0].Valid()
      requires kids[0].kids[0].Tree() == left
      modifies repr
      ensures Valid() && fresh(repr - old(repr)) && kind == old(kind)
      ensures Tree() == Add(kind.addOp, left, Const(val), kind.wid, kind.signed)
    {
      var se := kids[0].kids[0];
      var a := se.Dup();
      var c := new Node.Leaf(KConst(val));
      Install(a, c);
    }

    method Install(l: Node, r: Node)
      requires Arity(kind, 2) && l.Valid() && r.Valid()
      requires l.repr !! r.repr && this !in l.repr && this !in r.repr
      modifies this
      ensures Valid() && repr == {this} + l.repr + r.repr
      ensures kind == old(kind) && parts == [l.Tree(), r.Tree()]
    {
      kids, parts, repr := [l, r], [l.Tree(), r.Tree()], {this} + l.repr + r.repr;
    }

    /** The condition is folded first; a known one returns a copy of the branch it picks. */
    method EvalTernaryNode(ghost e: Expr) returns (res: Node?)
      requires kind.KTernary? && Valid() && Tree() == e && WellFormed(e)
      modifies repr
      ensures Valid() && fresh(repr - old(repr))
      ensures res == null ==> Tree() == Fold(e)
      ensures res != null ==> res.Valid() && fresh(res.repr) && res.Tree() == Fold(e)
      decreases e, 1
    {
      ghost var c, t, f := parts[0], parts[1], parts[2];
      assert c < e && t < e && f < e && WellFormed(c) && WellFormed(t) && WellFormed(f);
      EvalKid(0, e);
      assert parts == [Fold(c), t, f];
      res := PickBranch(Fold(c), t, f, e);
    }

    method PickBranch(ghost c: Expr, ghost t: Expr, ghost f: Expr, ghost bound: Expr) returns (res: Node?)
      requires kind.KTernary? && Valid() && parts == [c, t, f]
      requires t < bound && f < bound && WellFormed(t) && WellFormed(f)
      modifies repr
      ensures Valid() && fresh(repr - old(repr)) && kind == old(kind)
      ensures var n := PickedBranch(c, t, f, Fold(t), Fold(f), kind.wid, kind.signed);
              if res == null then Tree() == n else res.Valid() && fresh(res.repr) && res.Tree() == n
      decreases bound, 0, 3
    {
      res := null;
      if kids[0].kind.KConst? {
        var truth := ConstLogical(kids[0].kind.v);
        if truth == V0 {
          res := TakeBranch(2, bound);
        } else if truth == V1 {
          res := TakeBranch(1, bound);
        } else {
          res := BlendBranches(c, t, f, bound);
        }
      }
    }

    method TakeBranch(i: nat, ghost bound: Expr) returns (res: Node)
      requires Valid() && i < |kids| && parts[i] < bound && WellFormed(parts[i])
      modifies repr
      ensures Valid() && fresh(repr - old(repr)) && kind == old(kind)
      ensures res.Valid() && fresh(res.repr) && res.Tree() == Fold(old(parts[i]))
      decreases bound, 0, 1
    {
      EvalKid(i, bound);
      res := kids[i].Dup();
    }

    method BlendBranches(ghost c: Expr, ghost t: Expr, ghost f: Expr, ghost bound: Expr) returns (res: Node?)
      requires kind.KTernary? && Valid() && parts == [c, t, f]
      requires t < bound && f < bound && WellFormed(t) && WellFormed(f)
      modifies repr
      ensures Valid() && fresh(repr - old(repr)) && kind == old(kind)
      ensures var n := FoldBlend(c, Fold(t), Fold(f), kind.wid, kind.signed);
              if res == null then Tree() == n else res.Valid() && fresh(res.repr) && res.Tree() == n
      decreases bound, 0, 2
    {
      EvalFrom(1, bound);
      assert parts == [c, Fold(t), Fold(f)];
      res := BlendConstants(c, Fold(t), Fold(f));
    }

    method BlendConstants(ghost c: Expr, ghost t: Expr, ghost f: Expr) returns (res: Node?)
      requires kind.KTernary? && Valid() && parts == [c, t, f]
      ensures var n := FoldBlend(c, t, f, kind.wid, kind.signed);
              if res == null then Tree() == n else res.Valid() && fresh(res.repr) && res.Tree() == n
    {
      res := null;
      if kids[1].kind.KConst? && kids[2].kind.KConst? {
        var val := EvalBlend(kids[1].kind.v, kids[2].kind.v, kind.signed);
        res := new Node.Leaf(KConst(val));
      }
    }

    /** Operands that are constants already are left alone; the rest are folded in turn. */
    method EvalConcatNode(ghost t: Expr) returns (res: Node?)
      requires kind.KConcat? && Valid() && Tree() == t && WellFormed(t)
      modifies repr
      ensures Valid() && fresh(repr - old(repr))
      ensures res == null ==> Tree() == Fold(t)
      ensures res != null ==> res.Valid() && fresh(res.repr) && res.Tree() == Fold(t)
      decreases t, 1
    {
      ghost var ps := parts;
      forall i | 0 <= i < |ps| ensures WellFormed(ps[i]) { AllWellFormedAt(ps, i); }
      EvalFrom(0, t);
      FoldAllPointwise(ps, parts);
      res := JoinConstants();
    }

    method JoinConstants() returns (res: Node?)
      requires kind.KConcat? && Valid()
      ensures var n := FoldConcat(parts, kind.repeat, kind.signed, kind.twoState);
              if res == null then Tree() == n else res.Valid() && fresh(res.repr) && res.Tree() == n
    {
      var vals, all := ConstKids();
      res := null;
      if all {
        var v := EvalConcat(vals, kind.repeat, kind.signed);
        res := new Node.Leaf(KConst(v.value));
      }
    }

    method ConstKids() returns (vals: seq<Expr>, all: bool)
      requires Valid()
      ensures all <==> AllConst(parts)
      ensures all ==> vals == parts
    {
      vals := [];
      for i := 0 to |kids|
        invariant |vals| == i && forall j :: 0 <= j < i ==> vals[j] == parts[j] && vals[j].Const?
      {
        if !kids[i].kind.KConst? {
          assert !parts[i].Const?;
          return vals, false;
        }
        vals := vals + [Const(kids[i].kind.v)];
      }
      all := true;
    }
  }
}
