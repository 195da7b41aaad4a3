/** The folder's loops (qflow-org/iverilog/eval_tree.cc:198-1600), each proved to compute the
    vector operator that gives the node its meaning. */
module EvalLoops {
  import opened FourState
  import opened TwosComplement
  import opened Verinum
  import opened NetExpr
  import opened Folding

  // ----- arithmetic -----

  /** The low bits of a sum do not depend on how the operands' signs are read. */
  lemma SignIrrelevant(op: AddOp, l: Num4, r: Num4, w: nat)
    requires Defined(l.bits) && Defined(r.bits) && |l.bits| == |r.bits| == w
    ensures Encode(AddInt(op, IntOf(l), IntOf(r)), w) == AddVec(op, l.bits, r.bits, w)
    ensures Encode(IntOf(l) * IntOf(r), w) == MultVec(l.bits, r.bits, w)
  {
    hide Value, Encode;
    PadIrrelevant(l.bits, SignBit(l), V0);
    PadIrrelevant(r.bits, SignBit(r), V0);
    EncodeRing(IntOf(l), Value(l.bits, V0), IntOf(r), Value(r.bits, V0), w);
  }

  /** Casting an unsized result to the node's width keeps the low bits. */
  lemma CastArith(res: Num4, exact: int, l: Num4, r: Num4, w: nat)
    requires ArithResult(res, exact, l, r) && |l.bits| == |r.bits| == w > 0
    ensures CastToWidth(res, w).bits == if Defined(l.bits) && Defined(r.bits) then Encode(exact, w) else Fill(VX, w)
  {
    if Defined(l.bits) && Defined(r.bits) {
      EncodePrefix(exact, |res.bits|, w);
    }
  }

  /** NetEBAdd::eval_arguments_ */
  method EvalAdd(op: AddOp, lval: Num4, rval: Num4, w: nat) returns (res: Num4)
    requires |lval.bits| == |rval.bits| == w > 0
    ensures res == AddConst(op, lval, rval, w)
  {
    var raw;
    if op == OpPlus {
      raw := Plus(lval, rval);
      CastArith(raw, IntOf(lval) + IntOf(rval), lval, rval, w);
    } else {
      raw := Minus(lval, rval);
      CastArith(raw, IntOf(lval) - IntOf(rval), lval, rval, w);
    }
    if Defined(lval.bits) && Defined(rval.bits) {
      SignIrrelevant(op, lval, rval, w);
    }
    res := CastToWidth(raw, w);
  }

  /** NetEBMult::eval_arguments_, on the sized operands that elaboration gives it. */
  method EvalMult(lval: Num4, rval: Num4, w: nat) returns (res: Num4)
    requires |lval.bits| == |rval.bits| == w > 0 && lval.hasLen && rval.hasLen
    ensures res == Num4(MultVec(lval.bits, rval.bits, w), true, BothSigned(lval, rval))
  {
    var raw := Times(lval, rval);
    if Defined(lval.bits) && Defined(rval.bits) {
      SignIrrelevant(OpPlus, lval, rval, w);
    }
    res := CastToWidth(raw, w);
  }

  // ----- bitwise and logical -----

  /** NetEBBits::eval_arguments_, with the shortcut for a zero operand of &. */
  method EvalBits(op: BitsOp, lval: Num4, rval: Num4, w: nat, s: bool) returns (res: Num4)
    requires |lval.bits| == |rval.bits| == w > 0 && HasFold(op)
    ensures res == Num4(BitsVec(op, lval.bits, rval.bits, w), true, s)
  {
    if op == BitAnd && (IsZero(lval) || IsZero(rval)) {
      return Num4(Fill(V0, w), true, s);
    }
    var bits := Fill(V0, w);
    for idx := 0 to w
      invariant |bits| == w
      invariant forall j :: 0 <= j < idx ==> bits[j] == BitsBit(op, lval.bits[j], rval.bits[j])
    {
      bits := bits[idx := BitsBit(op, lval.bits[idx], rval.bits[idx])];
    }
    res := Num4(bits, true, s);
  }

  /** The scan for a 1 bit in NetEBLogic::eval_arguments_ and const_logical. */
  method ConstLogical(v: Num4) returns (res: Bit)
    ensures res == Logical(v.bits)
  {
    res := V0;
    for idx := 0 to |v.bits|
      invariant res == V0 || res == VX
      invariant forall j :: 0 <= j < idx ==> v.bits[j] != V1
      invariant res == V0 <==> Defined(v.bits[..idx])
    {
      if v.bits[idx] == V1 {
        return V1;
      }
      if v.bits[idx] != V0 {
        assert !Known(v.bits[..idx + 1][idx]);
        res := VX;
      }
      assert v.bits[..idx + 1] == v.bits[..idx] + [v.bits[idx]];
    }
    assert v.bits[..|v.bits|] == v.bits;
  }

  method EvalLogic(op: LogicOp, lval: Num4, rval: Num4) returns (res: Num4)
    ensures res == OneBit(LogicBit(op, Logical(lval.bits), Logical(rval.bits)))
  {
    var lv := ConstLogical(lval);
    var rv := ConstLogical(rval);
    if op == LogAnd {
      res := OneBit(if lv == V0 || rv == V0 then V0 else if lv == V1 && rv == V1 then V1 else VX);
    } else {
      res := OneBit(if lv == V1 || rv == V1 then V1 else if lv == V0 && rv == V0 then V0 else VX);
    }
  }

  // ----- comparison -----

  /** What the folder looks at in an operand: its constant value, type, width and sign. */
  datatype Operand = Operand(value: Option<Num4>, twoState: bool, wid: nat, signed: bool)

  function View(e: Expr): Operand {
    Operand(if e.Const? then Some(e.v) else None, TwoState(e), Width(e), Sign(e))
  }

  /** must_be_leeq_ */
  method MustBeLeeq(le: Operand, c: Num4, orEqual: bool, ghost e: Expr) returns (yes: bool)
    requires le == View(e) && le.wid > 0 && |c.bits| > 0 && Defined(c.bits)
    ensures yes == MustBeBelow(e, c, orEqual)
  {
    if !le.twoState {
      return false;
    }
    var s := le.signed && c.hasSign;
    var lv := Fill(V1, le.wid);
    if s {
      lv := lv[|lv| - 1 := V0];
    }
    assert lv == Largest(le.wid, s);
    var below := Compare(Num4(lv, true, s), c, orEqual);
    yes := below == V1;
  }

  /** Two constants of one sign without x and z. */
  predicate BothDefined(l: Expr, r: Expr) {
    l.Const? && r.Const? && Defined(l.v.bits) && Defined(r.v.bits) && l.v.hasSign == r.v.hasSign
  }

  /** eval_less_, eval_leeq_, eval_gt_, eval_gteq_ */
  method EvalOrder(op: CompOp, lo: Operand, ro: Operand, ghost l: Expr, ghost r: Expr) returns (res: Option<Num4>)
    requires op in {Lt, Le, Gt, Ge} && lo == View(l) && ro == View(r) && lo.wid == ro.wid > 0
    ensures res == OrderConst(op, l, r)
    ensures BothDefined(l, r) ==>
              var a, b := IntOf(l.v), IntOf(r.v);
              var holds := if op == Lt then a < b else if op == Le then a <= b else if op == Gt then a > b else a >= b;
              res.Some? && res.value.bits == if holds then [V1] else [V0]
  {
    if BothDefined(l, r) {
      OrderConstSound(op, l, r, l.v.bits, r.v.bits);
    }
    var flip := op == Gt || op == Ge;
    var orEqual := op == Le || op == Ge;
    var c, e := if flip then lo else ro, if flip then ro else lo;
    if c.value.None? {
      return None;
    }
    var cv := c.value.value;
    if !Defined(cv.bits) {
      return Some(OneBit(VX));
    }
    var below := MustBeLeeq(e, cv, orEqual, if flip then r else l);
    if below {
      return Some(OneBit(V1));
    }
    if e.value.None? {
      return None;
    }
    if !Defined(e.value.value.bits) {
      return Some(OneBit(VX));
    }
    var bit := Compare(e.value.value, cv, orEqual);
    return Some(OneBit(bit));
  }

  /** The pad that eval_eqeq_ gives an operand: 1 only for a signed operand with top bit 1. */
  function EqPad(v: Num4): Bit {
    if SignBit(v) == V1 then V1 else V0
  }

  predicate UnknownFrom(v: Vec, k: nat) {
    exists i :: k <= i < |v| && !Known(v[i])
  }

  predicate DiffersFrom(v: Vec, k: nat, pad: Bit) {
    exists i :: k <= i < |v| && Known(v[i]) && v[i] != pad
  }

  predicate UnknownCommon(l: Vec, r: Vec) {
    exists i :: 0 <= i < |l| && i < |r| && (!Known(l[i]) || !Known(r[i]))
  }

  /** A bit above the other operand's top that differs from that operand's pad. */
  predicate ExtraMismatch(l: Num4, r: Num4) {
    var n := Min(|l.bits|, |r.bits|);
    DiffersFrom(l.bits, n, EqPad(r)) || DiffersFrom(r.bits, n, EqPad(l))
  }

  predicate UnknownExtra(l: Vec, r: Vec) {
    var n := Min(|l|, |r|);
    UnknownFrom(l, n) || UnknownFrom(r, n)
  }

  /** What eval_eqeq_ returns for ==, at any two widths. */
  function EqCoded(l: Num4, r: Num4): Bit {
    if UnknownCommon(l.bits, r.bits) && !Mismatch(l.bits, r.bits) then VX
    else if UnknownExtra(l.bits, r.bits) then VX
    else if Mismatch(l.bits, r.bits) || ExtraMismatch(l, r) then V0
    else V1
  }

  /** The documented rule: any definite difference decides, then any unknown bit. */
  function EqMeant(l: Num4, r: Num4): Bit {
    if Mismatch(l.bits, r.bits) || ExtraMismatch(l, r) then V0
    else if Defined(l.bits) && Defined(r.bits) then V1
    else VX
  }

  /** == loses a definite difference exactly when some bit above the shorter operand is unknown,
      or the only difference lies up there and a common bit is unknown; never at equal widths,
      which are the only ones that elaboration makes. */
  lemma EqExactness(l: Num4, r: Num4)
    ensures EqCoded(l, r) == EqMeant(l, r)
            <==> (Mismatch(l.bits, r.bits) || ExtraMismatch(l, r)
                  ==> !UnknownExtra(l.bits, r.bits) && (Mismatch(l.bits, r.bits) || !UnknownCommon(l.bits, r.bits)))
    ensures |l.bits| == |r.bits| ==> EqCoded(l, r) == EqBit(l.bits, r.bits)
  {
    var n := Min(|l.bits|, |r.bits|);
    assert Defined(l.bits) && Defined(r.bits)
           <==> !UnknownCommon(l.bits, r.bits) && !UnknownFrom(l.bits, n) && !UnknownFrom(r.bits, n) by {
      if i :| 0 <= i < |l.bits| && !Known(l.bits[i]) {
        assert i < n || n <= i;
      }
      if i :| 0 <= i < |r.bits| && !Known(r.bits[i]) {
        assert i < n || n <= i;
      }
    }
  }

  /** The scan of one operand's extra bits: x wins over a difference, as the loop has it. */
  method ScanExtra(v: Vec, from: nat, pad: Bit, start: Bit, neRes: Bit) returns (res: Bit)
    requires from <= |v| && Known(pad) && Known(neRes) && (start == neRes || start == Not(neRes) || start == VX)
    ensures res == if start == VX || UnknownFrom(v, from) then VX
                   else if DiffersFrom(v, from, pad) then neRes else start
  {
    res := start;
    for idx := from to |v|
      invariant res == if start == VX || UnknownFrom(v[..idx], from) then VX
                       else if DiffersFrom(v[..idx], from, pad) then neRes else start
    {
      ghost var a, b := v[..idx], v[..idx + 1];
      assert b == a + [v[idx]] && b[idx] == v[idx];
      assert forall i :: from <= i < idx ==> a[i] == b[i];
      if !Known(v[idx]) {
        res := VX;
        assert UnknownFrom(b, from);
      } else {
        assert UnknownFrom(a, from) == UnknownFrom(b, from);
        if res != VX && v[idx] != pad {
          res := neRes;
          assert DiffersFrom(b, from, pad);
        } else if v[idx] == pad {
          assert DiffersFrom(a, from, pad) == DiffersFrom(b, from, pad);
        }
      }
    }
    assert v[..|v|] == v;
  }

  /** eval_eqeq_, for == and (neFlag) != */
  method EvalEqEq(neFlag: bool, lv: Num4, rv: Num4) returns (res: Num4)
    ensures res == OneBit(if neFlag then Not(EqCoded(lv, rv)) else EqCoded(lv, rv))
  {
    var eqRes := if neFlag then V0 else V1;
    var neRes := if neFlag then V1 else V0;
    var top := Min(|lv.bits|, |rv.bits|);
    var bit := eqRes;
    var idx := 0;
    while idx < top
      invariant 0 <= idx <= top
      invariant bit == eqRes || bit == VX
      invariant forall j :: 0 <= j < idx && Known(lv.bits[j]) && Known(rv.bits[j]) ==> lv.bits[j] == rv.bits[j]
      invariant bit == VX <==> exists j :: 0 <= j < idx && (!Known(lv.bits[j]) || !Known(rv.bits[j]))
    {
      if !Known(lv.bits[idx]) || !Known(rv.bits[idx]) {
        bit := VX;
      } else if rv.bits[idx] != lv.bits[idx] {
        assert Mismatch(lv.bits, rv.bits);
        bit := neRes;
        break;
      }
      idx := idx + 1;
    }
    assert idx < top <==> Mismatch(lv.bits, rv.bits);
    assert bit == VX <==> UnknownCommon(lv.bits, rv.bits) && !Mismatch(lv.bits, rv.bits);
    if bit != VX {
      bit := ScanExtra(lv.bits, top, EqPad(rv), bit, neRes);
      bit := ScanExtra(rv.bits, top, EqPad(lv), bit, neRes);
    }
    res := OneBit(bit);
  }

  predicate CommonEqual(l: Vec, r: Vec) {
    forall i :: 0 <= i < |l| && i < |r| ==> l[i] == r[i]
  }

  function CasePad(shorter: Num4, other: Num4): Bit {
    if shorter.hasSign && other.hasSign then SignBit(shorter) else V0
  }

  predicate AllFrom(v: Vec, k: nat, pad: Bit) {
    forall i :: k <= i < |v| ==> v[i] == pad
  }

  /** === at any two widths: equal bits, and the rest of the longer operand is the pad. */
  predicate CaseEqMeant(l: Num4, r: Num4) {
    && CommonEqual(l.bits, r.bits)
    && AllFrom(l.bits, |r.bits|, CasePad(r, l))
    && AllFrom(r.bits, |l.bits|, CasePad(l, r))
  }

  /** As coded, a longer right operand is compared in its first extra bit only. */
  predicate CaseEqCoded(l: Num4, r: Num4) {
    && CommonEqual(l.bits, r.bits)
    && AllFrom(l.bits, |r.bits|, CasePad(r, l))
    && (|l.bits| < |r.bits| ==> r.bits[|l.bits|] == CasePad(l, r))
  }

  /** The scan and the rule differ exactly when the common bits are equal, the first extra bit of
      a longer right operand is the pad, and some bit further up is not. */
  lemma CaseEqExactness(l: Num4, r: Num4)
    ensures CaseEqCoded(l, r) != CaseEqMeant(l, r)
            <==> && |l.bits| < |r.bits| && CommonEqual(l.bits, r.bits)
                 && r.bits[|l.bits|] == CasePad(l, r)
                 && exists i :: |l.bits| < i < |r.bits| && r.bits[i] != CasePad(l, r)
    ensures |l.bits| == |r.bits| ==> (CaseEqCoded(l, r) <==> l.bits == r.bits)
  {
    var n, pad := |l.bits|, CasePad(l, r);
    if n < |r.bits| && r.bits[n] == pad {
      if i :| n < i < |r.bits| && r.bits[i] != pad {
        assert !AllFrom(r.bits, n, pad);
      } else {
        assert AllFrom(r.bits, n, pad);
      }
    }
  }

  /** A fact about the scan alone: given 0 and 100 it answers yes. Elaboration resizes the operands
      of a comparison to one width (qflow-org/iverilog/elab_expr.cc:645-653), so it never asks. */
  lemma CaseEqMissesHighBits()
    ensures var l, r := Num4([V0], true, false), Num4([V0, V0, V1], true, false);
            CaseEqCoded(l, r) && !CaseEqMeant(l, r)
  {
    var r := [V0, V0, V1];
    assert r[2] == V1;
  }

  /** eval_eqeqeq_, for === and (neFlag) !== */
  method EvalEqEqEq(neFlag: bool, lv: Num4, rv: Num4) returns (res: Num4)
    requires lv.hasSign && rv.hasSign ==> |lv.bits| > 0 && |rv.bits| > 0
    ensures res == OneBit(FromBool(CaseEqCoded(lv, rv) != neFlag))
  {
    var same := true;
    var cnt := Min(|lv.bits|, |rv.bits|);
    for idx := 0 to cnt
      invariant same && forall j :: 0 <= j < idx ==> lv.bits[j] == rv.bits[j]
    {
      if lv.bits[idx] != rv.bits[idx] {
        same := false;
        break;
      }
    }
    assert same <==> CommonEqual(lv.bits, rv.bits);
    if same {
      var pad := CasePad(rv, lv);
      for idx := cnt to |lv.bits|
        invariant same && forall j :: cnt <= j < idx ==> lv.bits[j] == pad
      {
        if lv.bits[idx] != pad {
          same := false;
          break;
        }
      }
      assert same <==> AllFrom(lv.bits, |rv.bits|, pad);
    }
    if same && cnt < |rv.bits| {
      same := rv.bits[cnt] == CasePad(lv, rv);
    }
    res := OneBit(FromBool(same != neFlag));
  }

  // ----- shifts -----

  /** operators << and >> on a sized number */
  method ShiftBits(op: ShiftOp, that: Num4, shift: nat) returns (bits: Vec)
    requires that.hasLen && |that.bits| > 0
    ensures bits == ShiftVec(op, that.bits, shift, that.hasSign, |that.bits|)
  {
    var len := |that.bits|;
    if op == ShLeft {
      bits := Fill(V0, len);
      for idx := Min(shift, len) to len
        invariant |bits| == len
        invariant forall j :: 0 <= j < len ==> bits[j] == if shift <= j < idx then that.bits[j - shift] else V0
      {
        bits := bits[idx := that.bits[idx - shift]];
      }
    } else {
      var pad := if op == ShArith && that.hasSign then that.bits[len - 1] else V0;
      bits := Fill(pad, len);
      for idx := Min(shift, len) to len
        invariant |bits| == len
        invariant forall j :: 0 <= j < len ==> bits[j] == if j + shift < idx then that.bits[j + shift] else pad
      {
        bits := bits[idx - shift := that.bits[idx]];
      }
    }
    ghost var spec := ShiftVec(op, that.bits, shift, that.hasSign, len);
    forall j | 0 <= j < len
      ensures bits[j] == spec[j]
    {
      if op == ShLeft {
        assert spec[j] == if j < shift then V0 else At(that.bits, j - shift, V0);
      } else {
        assert spec[j] == At(that.bits, j + shift, if op == ShArith then SignPad(that.bits, that.hasSign) else V0);
      }
    }
  }

  /** NetEBShift::eval_arguments_ */
  method EvalShift(op: ShiftOp, lv: Num4, rv: Num4, w: nat, s: bool) returns (res: Num4)
    requires |lv.bits| == w > 0 && lv.hasLen
    ensures res == Num4(if Defined(rv.bits) then ShiftVec(op, lv.bits, AsUnsigned(rv), lv.hasSign, w)
        else Fill(VX, w), true, s)
  {
    if Defined(rv.bits) {
      var bits := ShiftBits(op, lv, AsUnsigned(rv));
      res := Num4(bits, true, s);
    } else {
      res := Num4(Fill(VX, w), true, s);
    }
  }

  // ----- concatenation, selection, blending -----

  /** Where bit i of repeat number rep lands. */
  function Pos(rep: nat, gap: nat, i: nat): nat {
    rep * gap + i
  }

  lemma PosInjective(r1: nat, i1: nat, r2: nat, i2: nat, gap: nat)
    requires i1 < gap && i2 < gap && Pos(r1, gap, i1) == Pos(r2, gap, i2)
    ensures r1 == r2 && i1 == i2
  {
    MulCommutes(r1, gap);
    MulCommutes(r2, gap);
    ModUnique(Pos(r1, gap, i1), gap, r1, i1);
    ModUnique(Pos(r2, gap, i2), gap, r2, i2);
  }

  lemma PosBound(rep: nat, i: nat, n: nat, gap: nat)
    requires rep < n && i < gap
    ensures Pos(rep, gap, i) < n * gap
  {
    MulMonotone(gap, rep + 1, n);
    MulDistrib(gap, rep, 1);
    MulCommutes(gap, rep);
    MulCommutes(gap, n);
  }

  lemma {:induction false} ReplicateAt(v: Vec, n: nat, rep: nat, i: nat)
    requires rep < n && i < |v|
    ensures Pos(rep, |v|, i) < n * |v| && Replicate(v, n)[Pos(rep, |v|, i)] == v[i]
    decreases n
  {
    PosBound(rep, i, n, |v|);
    if rep > 0 {
      ReplicateAt(v, n - 1, rep - 1, i);
      assert Pos(rep, |v|, i) == |v| + Pos(rep - 1, |v|, i) by {
        MulDistrib(|v|, rep, 1);
        MulCommutes(|v|, rep);
        MulCommutes(|v|, rep - 1);
      }
    }
  }

  /** Every repeat holds the part placed so far at its bottom. */
  ghost predicate Placed(val: Vec, part: Vec, n: nat, gap: nat) {
    && |val| == n * gap && |part| <= gap
    && forall rep: nat, i: nat :: rep < n && i < |part| && Pos(rep, gap, i) < |val| ==> val[Pos(rep, gap, i)] == part[i]
  }

  lemma PlacedAll(val: Vec, part: Vec, n: nat, gap: nat)
    requires Placed(val, part, n, gap) && |part| == gap
    ensures val == Replicate(part, n)
  {
    forall p | 0 <= p < n * gap
      ensures val[p] == Replicate(part, n)[p]
    {
      MulCommutes(n, gap);
      var rep, i := p / gap, p % gap;
      assert p == gap * rep + i;
      MulCommutes(gap, rep);
      MulCommutes(gap, n);
      if rep >= n {
        MulMonotone(gap, n, rep);
      }
      ReplicateAt(part, n, rep, i);
      assert Pos(rep, gap, i) == p;
    }
  }

  /** The innermost loop: one bit into every repeat. */
  method PlaceBit(val0: Vec, ghost part: Vec, bit: Bit, cur: nat, n: nat, gap: nat) returns (val: Vec)
    requires Placed(val0, part, n, gap) && cur == |part| < gap
    ensures Placed(val, part + [bit], n, gap)
  {
    val := val0;
    for rep := 0 to n
      invariant Placed(val, part, n, gap)
      invariant forall r: nat :: r < rep && Pos(r, gap, cur) < |val| ==> val[Pos(r, gap, cur)] == bit
    {
      PosBound(rep, cur, n, gap);
      ghost var before := val;
      val := val[Pos(rep, gap, cur) := bit];
      forall r: nat, i: nat | r < n && i < gap && Pos(r, gap, i) < |val| && (r != rep || i != cur)
        ensures val[Pos(r, gap, i)] == before[Pos(r, gap, i)]
      {
        if Pos(r, gap, i) == Pos(rep, gap, cur) {
          PosInjective(r, i, rep, cur, gap);
        }
      }
    }
  }

  lemma {:induction false} CatLength(vs: seq<Vec>, k: nat)
    requires k <= |vs|
    ensures |Cat(vs[k..])| <= |Cat(vs)|
    decreases k
  {
    if k > 0 {
      CatLength(vs, k - 1);
      assert vs[k - 1..][1..] == vs[k..];
    } else {
      assert vs[0..] == vs;
    }
  }

  lemma {:induction false} ConstVecsAt(es: seq<Expr>, k: nat)
    requires AllConst(es) && k < |es|
    ensures ConstVecs(es)[k] == es[k].v.bits
  {
    if k > 0 {
      ConstVecsAt(es[1..], k - 1);
    }
  }

  lemma {:induction false} WidthSumAppend(es: seq<Expr>, e: Expr)
    ensures WidthSum(es + [e]) == WidthSum(es) + Width(e)
  {
    if es != [] {
      WidthSumAppend(es[1..], e);
      assert (es + [e])[1..] == es[1..] + [e];
    } else {
      assert [e][1..] == [];
    }
  }

  lemma {:induction false} CatWidth(es: seq<Expr>)
    requires AllConst(es)
    ensures |Cat(ConstVecs(es))| == WidthSum(es)
  {
    if es != [] {
      CatWidth(es[1..]);
    }
  }

  /** NetEConcat::eval_arguments_: last operand first, each bit into every repeat. */
  method EvalConcat(vals: seq<Expr>, repeat: nat, s: bool) returns (res: Option<Num4>)
    ensures res == if AllConst(vals) then Some(Num4(Replicate(Cat(ConstVecs(vals)), repeat), true, s)) else None
  {
    var gap := 0;
    for idx := 0 to |vals|
      invariant forall j :: 0 <= j < idx ==> vals[j].Const?
      invariant gap == WidthSum(vals[..idx])
    {
      if !vals[idx].Const? {
        return None;
      }
      WidthSumAppend(vals[..idx], vals[idx]);
      assert vals[..idx + 1] == vals[..idx] + [vals[idx]];
      gap := gap + Width(vals[idx]);
    }
    assert vals[..|vals|] == vals;
    ghost var vs := ConstVecs(vals);
    CatWidth(vals);
    var val := Fill(VX, repeat * gap);
    var cur := 0;
    var idx := |vals|;
    assert vs[|vs|..] == [];
    while idx > 0
      invariant 0 <= idx <= |vals|
      invariant cur == |Cat(vs[idx..])| && Placed(val, Cat(vs[idx..]), repeat, gap)
    {
      var tmp := vals[idx - 1].v.bits;
      ConstVecsAt(vals, idx - 1);
      CatLength(vs, idx - 1);
      assert vs[idx - 1..][1..] == vs[idx..];
      assert Cat(vs[idx - 1..]) == Cat(vs[idx..]) + tmp;
      for bit := 0 to |tmp|
        invariant cur == |Cat(vs[idx..])| + bit
        invariant Placed(val, Cat(vs[idx..]) + tmp[..bit], repeat, gap)
      {
        val := PlaceBit(val, Cat(vs[idx..]) + tmp[..bit], tmp[bit], cur, repeat, gap);
        assert (Cat(vs[idx..]) + tmp[..bit]) + [tmp[bit]] == Cat(vs[idx..]) + tmp[..bit + 1];
        cur := cur + 1;
      }
      assert tmp[..|tmp|] == tmp;
      idx := idx - 1;
    }
    assert vs[0..] == vs;
    PlacedAll(val, Cat(vs), repeat, gap);
    res := Some(Num4(val, true, s));
  }

  /** The fill loop of NetESelect::eval_tree; without a base the pad extends the operand. */
  method FillSelect(v: Vec, base: int, pad: Bit, w: nat) returns (bits: Vec)
    ensures |bits| == w && forall i :: 0 <= i < w ==> bits[i] == if 0 <= base + i < |v| then v[base + i] else pad
  {
    bits := Fill(V0, w);
    var bval := base;
    for idx := 0 to w
      invariant |bits| == w && bval == base + idx
      invariant forall i :: 0 <= i < idx ==> bits[i] == if 0 <= base + i < |v| then v[base + i] else pad
    {
      if 0 <= bval && bval < |v| {
        bits := bits[idx := v[bval]];
      } else {
        bits := bits[idx := pad];
      }
      bval := bval + 1;
    }
  }

  method EvalSelect(x: Num4, b: Num4, w: nat, s: bool) returns (res: Num4)
    ensures res == Num4(SelectVec(x.bits, AsLong(b), w), true, s)
  {
    var bits := FillSelect(x.bits, AsLong(b), VX, w);
    assert bits == SelectVec(x.bits, AsLong(b), w);
    res := Num4(bits, true, s);
  }

  method EvalExtend(x: Num4, w: nat, s: bool) returns (res: Num4)
    requires |x.bits| > 0
    ensures res == Num4(ExtendVec(x.bits, s, w), true, s)
  {
    var bits := FillSelect(x.bits, 0, if s then x.bits[|x.bits| - 1] else V0, w);
    assert bits == ExtendVec(x.bits, s, w);
    res := Num4(bits, true, s);
  }

  /** NetETernary::blended_arguments_ */
  method EvalBlend(t: Num4, f: Num4, s: bool) returns (res: Num4)
    ensures res == Num4(Blend(t.bits, f.bits), true, s)
  {
    var rsize := Max(|t.bits|, |f.bits|);
    var bits := Fill(V0, rsize);
    for idx := 0 to rsize
      invariant |bits| == rsize
      invariant forall j :: 0 <= j < idx ==> bits[j] == BlendBit(At(t.bits, j, V0), At(f.bits, j, V0))
    {
      var tv := if idx < |t.bits| then t.bits[idx] else V0;
      var fv := if idx < |f.bits| then f.bits[idx] else V0;
      bits := bits[idx := if tv == fv then tv else VX];
    }
    assert bits == Blend(t.bits, f.bits);
    res := Num4(bits, true, s);
  }

  // ----- unary operators -----

  lemma NegateSignless(x: Num4)
    requires Defined(x.bits)
    ensures Encode(-IntOf(x), |x.bits|) == Encode(-Value(x.bits, V0), |x.bits|)
  {
    PadIrrelevant(x.bits, SignBit(x), V0);
    EncodeDiff(IntOf(x), Value(x.bits, V0), 0, |x.bits|);
  }

  lemma NegativeByTop(x: Num4)
    requires |x.bits| > 0
    ensures IntOf(x) < 0 <==> SignBit(x) == V1
  {
    ValuePadded(x.bits, SignBit(x));
    ValueRange(x.bits);
  }

  /** NetEUnary::eval_arguments_ */
  method EvalUnary(op: UnaryOp, x: Num4) returns (res: Num4)
    requires |x.bits| > 0 && x.hasLen
    ensures res == Num4(UnaryVec(op, x.bits, x.hasSign), x.hasLen, x.hasSign)
  {
    res := x;
    match op
    case Pos =>
    case Neg =>
      res := Negate(x);
      if Defined(x.bits) {
        NegateSignless(x);
      }
    case Abs =>
      if !Defined(x.bits) {
        res := Num4(Fill(VX, |x.bits|), x.hasLen, x.hasSign);
      } else {
        NegativeByTop(x);
        if x.hasSign && x.bits[|x.bits| - 1] == V1 {
          res := Negate(x);
          NegateSignless(x);
        }
      }
    case Inv =>
      var bits := x.bits;
      for idx := 0 to |x.bits|
        invariant |bits| == |x.bits|
        invariant forall j :: 0 <= j < |bits| ==> bits[j] == if j < idx then Not(x.bits[j]) else x.bits[j]
      {
        bits := bits[idx := if bits[idx] == V0 then V1 else if bits[idx] == V1 then V0 else VX];
      }
      assert bits == NotVec(x.bits);
      res := Num4(bits, x.hasLen, x.hasSign);
  }

  lemma AllOnesStep(v: Vec, b: Bit)
    ensures AllOnes(v + [b]) == And(AllOnes(v), b)
  {
    var u := v + [b];
    assert u[|v|] == b && forall i :: 0 <= i < |v| ==> u[i] == v[i];
  }

  lemma LogicalStep(v: Vec, b: Bit)
    ensures Logical(v + [b]) == Or(Logical(v), b)
  {
    var u := v + [b];
    assert u[|v|] == b && forall i :: 0 <= i < |v| ==> u[i] == v[i];
  }

  lemma {:induction false} OnesStep(v: Vec, b: Bit)
    ensures Ones(v + [b]) == Ones(v) + BitVal(b)
  {
    if |v| > 0 {
      OnesStep(v[1..], b);
      assert (v + [b])[1..] == v[1..] + [b];
    } else {
      assert (v + [b])[1..] == [];
    }
  }

  /** NetEUReduce::eval_arguments_: logical not scans to the first 1, and and or accumulate
      bit by bit, xor counts ones and unknowns. */
  method EvalReduce(op: ReduceOp, x: Num4) returns (res: Num4)
    ensures res == OneBit(ReduceBit(op, x.bits))
  {
    var v := x.bits;
    var bit;
    var invert := op == RedNand || op == RedNor || op == RedXnor;
    if op == LogNot {
      var truth := ConstLogical(x);
      bit := if truth == V1 then V0 else if truth == VX then VX else V1;
    } else if op == RedAnd || op == RedNand {
      bit := V1;
      for idx := 0 to |v|
        invariant bit == AllOnes(v[..idx])
      {
        AllOnesStep(v[..idx], v[idx]);
        assert v[..idx + 1] == v[..idx] + [v[idx]];
        bit := And(bit, v[idx]);
      }
    } else if op == RedOr || op == RedNor {
      bit := V0;
      for idx := 0 to |v|
        invariant bit == Logical(v[..idx])
      {
        LogicalStep(v[..idx], v[idx]);
        assert v[..idx + 1] == v[..idx] + [v[idx]];
        bit := Or(bit, v[idx]);
      }
    } else {
      var ones, unknown := 0, 0;
      for idx := 0 to |v|
        invariant ones == Ones(v[..idx])
        invariant unknown == 0 <==> Defined(v[..idx])
      {
        OnesStep(v[..idx], v[idx]);
        assert v[..idx + 1] == v[..idx] + [v[idx]];
        if v[idx] == V1 {
          ones := ones + 1;
        } else if v[idx] != V0 {
          assert !Known(v[..idx + 1][idx]);
          unknown := unknown + 1;
        }
      }
      bit := if unknown > 0 then VX else if ones % 2 == 1 then V1 else V0;
    }
    assert v[..|v|] == v;
    res := OneBit(if invert then Not(bit) else bit);
  }
}
