/** Expression widths before elaboration: the test_width methods and the mode they thread
    (qflow-org/iverilog/elab_expr.cc:146-154, 259-344, 566-627, 725-881, 5549-5579, 5658-5717,
    5880-5917; PExpr.h:91-126). Reals, power, calls and concatenations are left out. */
module WidthTest {
  import opened FourState
  import opened Verinum
  import opened NetExpr
  import TwosComplement

  datatype Mode = SIZED | UNSIZED | EXPAND | LOSSLESS | UPSIZE

  function Rank(m: Mode): nat {
    match m
    case SIZED => 0
    case UNSIZED => 1
    case EXPAND => 2
    case LOSSLESS => 3
    case UPSIZE => 4
  }

  predicate Wide(m: Mode) {
    m == LOSSLESS || m == UPSIZE
  }

  datatype PBinOp = PAdd | PSub | PMul | PDiv | PMod | PBits(bits: BitsOp)

  /** Self-determined operators give one bit; the others work at their context's width. */
  datatype PUnOp = PContext(unary: UnaryOp) | PReduce(reduce: ReduceOp)

  datatype PExpr =
    | Number(bits: Vec, hasLen: bool, isSingle: bool, sign: bool)
    | Ident(id: nat, wid: nat, sign: bool, sized: bool)
    | Binary(op: PBinOp, l: PExpr, r: PExpr)
    | Cond(c: PExpr, t: PExpr, f: PExpr)
    | Un(unOp: PUnOp, x: PExpr)
    | Compare(cmp: CompOp, l: PExpr, r: PExpr)
    | LeftShift(shift: ShiftOp, l: PExpr, r: PExpr, known: Option<int>)

  /** gn_strict_expr_width_flag, integer_width and width_cap. */
  datatype Config = Config(strict: bool, integerWidth: nat, widthCap: nat)

  /** What one call leaves behind: the returned width and mode, and the node's fields. */
  datatype Tested = Tested(ret: nat, mode: Mode, width: nat, minWidth: nat, sign: bool)

  /** fix_width_: the width is returned as calculated, the field may be raised. */
  function Fixed(width: nat, minWidth: nat, sign: bool, mode: Mode, cfg: Config): Tested {
    Tested(width, mode, if mode == UPSIZE && width < cfg.integerWidth then cfg.integerWidth else width, minWidth, sign)
  }

  function AtLeast(m: Mode, floor: Mode): Mode {
    if Rank(m) < Rank(floor) then floor else m
  }

  function TestNumber(bits: Vec, hasLen: bool, isSingle: bool, sign: bool, mode: Mode, cfg: Config): Tested {
    var len := |bits|;
    if hasLen || isSingle then Tested(len, mode, len, len, sign)
    else if cfg.strict then Tested(cfg.integerWidth, UNSIZED, cfg.integerWidth, len, sign)
    else if Rank(mode) < Rank(LOSSLESS) then
      if len < cfg.integerWidth then Tested(cfg.integerWidth, AtLeast(mode, UNSIZED), cfg.integerWidth, len, sign)
      else Tested(len, LOSSLESS, len, len, sign)
    else Tested(len, mode, len, len, sign)
  }

  /** Mixed signs force unsigned: a lossless calculation can no longer be trusted. */
  function Mixed(mode: Mode, s1: bool, s2: bool): Mode {
    if mode == LOSSLESS && s1 != s2 then UPSIZE else mode
  }

  function BinaryWidth(op: PBinOp, lw: nat, rw: nat, mode: Mode): nat {
    match op
    case PAdd => if Rank(mode) >= Rank(EXPAND) then Max(lw, rw) + 1 else Max(lw, rw)
    case PSub => if Rank(mode) >= Rank(EXPAND) then Max(lw, rw) + 1 else Max(lw, rw)
    case PMul => if Rank(mode) >= Rank(EXPAND) then lw + rw else Max(lw, rw)
    case _ => Max(lw, rw)
  }

  function BinaryMin(op: PBinOp, lm: nat, rm: nat): nat {
    if op == PDiv || op == PMod then UINT_MAX else Max(lm, rm)
  }

  /** 2^width - 1 up to the largest long, the guess for an unknown shift amount. */
  function LargestLong(width: nat): nat {
    TwosComplement.Pow2(Min(width, LONG_BITS)) - 1
  }

  /** The shift amount used for the lossless width: known, or the largest, clipped to the cap. */
  function ShiftGuess(rWidth: nat, rSign: bool, known: Option<int>, cfg: Config): nat {
    var v := if known.Some? && rWidth <= (if rSign then 64 else 63) then known.value else LargestLong(rWidth);
    if v < 0 then 0 else Min(v, cfg.widthCap)
  }

  function ShiftWidth(op: ShiftOp, lw: nat, lMode: Mode, guess: nat, constAmount: bool, cfg: Config): nat {
    var use := if op == ShLeft && lMode != SIZED then lw + guess else lw;
    if !constAmount && use > lw && use > cfg.integerWidth then cfg.integerWidth else use
  }

  function BinaryTested(op: PBinOp, l: Tested, r: Tested, cfg: Config): Tested {
    var m := Mixed(r.mode, l.sign, r.sign);
    Fixed(BinaryWidth(op, l.ret, r.ret, m), BinaryMin(op, l.minWidth, r.minWidth), l.sign && r.sign, m, cfg)
  }

  function CondTested(t: Tested, f: Tested, cfg: Config): Tested {
    var m := Mixed(t.mode, t.sign, f.sign);
    Fixed(Max(t.ret, f.ret), Max(t.minWidth, f.minWidth), t.sign && f.sign, m, cfg)
  }

  function ShiftTested(op: ShiftOp, l: Tested, r: Tested, known: Option<int>, mode: Mode, cfg: Config): Tested {
    var m := if mode == SIZED then l.mode else mode;
    var expand := Rank(m) >= Rank(EXPAND);
    var w := if expand then ShiftWidth(op, l.ret, l.mode, ShiftGuess(r.ret, r.sign, known, cfg), known.Some?, cfg)
        else l.ret;
    var m2 := if expand && op != ShLeft && m == LOSSLESS && l.sign then UPSIZE else m;
    Fixed(w, if op == ShLeft then l.minWidth else UINT_MAX, l.sign, m2, cfg)
  }

  function Test(e: PExpr, mode: Mode, cfg: Config): Tested {
    match e
    case Number(bits, hasLen, isSingle, sign) => TestNumber(bits, hasLen, isSingle, sign, mode, cfg)
    case Ident(_, w, sign, sized) => Tested(w, if sized then mode else AtLeast(mode, LOSSLESS), w, w, sign)
    case Binary(op, l, r) =>
      var r1 := Test(r, mode, cfg);
      var l1 := Test(l, r1.mode, cfg);
      var r2 := if Wide(l1.mode) && !Wide(r1.mode) then Test(r, l1.mode, cfg) else r1.(mode := l1.mode);
      BinaryTested(op, l1, r2, cfg)
    case Cond(_, t, f) =>
      var t1 := Test(t, mode, cfg);
      var f1 := Test(f, t1.mode, cfg);
      var t2 := if Wide(f1.mode) && !Wide(t1.mode) then Test(t, f1.mode, cfg) else t1.(mode := f1.mode);
      CondTested(t2, f1, cfg)
    case Un(PContext(_), x) =>
      var x1 := Test(x, mode, cfg);
      Fixed(x1.ret, x1.minWidth, x1.sign, x1.mode, cfg)
    case Un(PReduce(_), _) => Tested(1, mode, 1, 1, false)
    case Compare(_, _, _) => Tested(1, mode, 1, 1, false)
    case LeftShift(op, l, r, known) =>
      ShiftTested(op, Test(l, SIZED, cfg), Test(r, SIZED, cfg), known, mode, cfg)
  }

  /** PEBComp::test_width: the widths at which the two operands are compared, and the mode. */
  function TestCompare(l: PExpr, r: PExpr, cfg: Config): (nat, nat, Mode) {
    var r1 := Test(r, SIZED, cfg);
    var l1 := Test(l, r1.mode, cfg);
    var r2 := if Wide(l1.mode) && !Wide(r1.mode) then Test(r, l1.mode, cfg) else r1.(mode := l1.mode);
    var w := Max(l1.ret, r2.ret);
    var w2 := if Rank(r2.mode) >= Rank(EXPAND) && w < cfg.integerWidth then w + 1 else w;
    (w2, w2, r2.mode)
  }

  // ----- what the modes mean -----

  /** The width rules of section 5.4.1 of IEEE 1364-2005, an unsized literal counting as an integer. */
  function StandardWidth(e: PExpr, cfg: Config): nat {
    match e
    case Number(bits, hasLen, isSingle, _) => if hasLen || isSingle then |bits| else cfg.integerWidth
    case Ident(_, w, _, _) => w
    case Binary(_, l, r) => Max(StandardWidth(l, cfg), StandardWidth(r, cfg))
    case Cond(_, t, f) => Max(StandardWidth(t, cfg), StandardWidth(f, cfg))
    case Un(PContext(_), x) => StandardWidth(x, cfg)
    case Un(PReduce(_), _) => 1
    case Compare(_, _, _) => 1
    case LeftShift(_, l, _, _) => StandardWidth(l, cfg)
  }

  /** A shift keeps the mode of its left operand to itself, so its width may be lossless in any mode. */
  predicate ShiftFree(e: PExpr) {
    match e
    case Binary(_, l, r) => ShiftFree(l) && ShiftFree(r)
    case Cond(_, t, f) => ShiftFree(t) && ShiftFree(f)
    case Un(PContext(_), x) => ShiftFree(x)
    case LeftShift(_, _, _, _) => false
    case _ => true
  }

  /** The width without overflow: one bit more for a sum, all bits of a product. */
  function LosslessWidth(e: PExpr, cfg: Config): nat {
    match e
    case Number(bits, _, _, _) => |bits|
    case Ident(_, w, _, _) => w
    case Binary(op, l, r) =>
      var lw, rw := LosslessWidth(l, cfg), LosslessWidth(r, cfg);
      if op == PAdd || op == PSub then Max(lw, rw) + 1
      else if op == PMul then lw + rw
      else Max(lw, rw)
    case Cond(_, t, f) => Max(LosslessWidth(t, cfg), LosslessWidth(f, cfg))
    case Un(PContext(_), x) => LosslessWidth(x, cfg)
    case Un(PReduce(_), _) => 1
    case Compare(_, _, _) => 1
    case LeftShift(op, l, r, known) =>
      var r1, l1 := Test(r, SIZED, cfg), Test(l, SIZED, cfg);
      ShiftWidth(op, l1.ret, l1.mode, ShiftGuess(r1.ret, r1.sign, known, cfg), known.Some?, cfg)
  }

  function SignOf(e: PExpr): bool {
    match e
    case Number(_, _, _, s) => s
    case Ident(_, _, s, _) => s
    case Binary(_, l, r) => SignOf(l) && SignOf(r)
    case Cond(_, t, f) => SignOf(t) && SignOf(f)
    case Un(PContext(_), x) => SignOf(x)
    case Un(PReduce(_), _) => false
    case Compare(_, _, _) => false
    case LeftShift(_, l, _, _) => SignOf(l)
  }

  /** The width below which results may change: the widest context-determined leaf. */
  function PruneWidth(e: PExpr): nat {
    match e
    case Number(bits, _, _, _) => |bits|
    case Ident(_, w, _, _) => w
    case Binary(op, l, r) => BinaryMin(op, PruneWidth(l), PruneWidth(r))
    case Cond(_, t, f) => Max(PruneWidth(t), PruneWidth(f))
    case Un(PContext(_), x) => PruneWidth(x)
    case Un(PReduce(_), _) => 1
    case Compare(_, _, _) => 1
    case LeftShift(op, l, _, _) => if op == ShLeft then PruneWidth(l) else UINT_MAX
  }

  /** One call, from any mode: sign and pruning width do not depend on the mode; the mode never
      falls; and the width returned follows the standard unless the mode ends wide, where it is
      the lossless width however the mode got there. */
  lemma {:induction false} TestMeans(e: PExpr, mode: Mode, cfg: Config)
    requires !cfg.strict
    ensures var t := Test(e, mode, cfg);
            && t.sign == SignOf(e) && t.minWidth == PruneWidth(e)
            && Rank(t.mode) >= Rank(mode)
            && (Wide(t.mode) ==> t.ret == LosslessWidth(e, cfg))
            && (Rank(t.mode) < Rank(EXPAND) && ShiftFree(e) ==> t.ret == StandardWidth(e, cfg))
    decreases e, 1
  {
    match e
    case Number(_, _, _, _) =>
    case Ident(_, _, _, _) =>
    case Binary(op, l, r) => TestBinaryMeans(e, mode, cfg);
    case Cond(_, t, f) => TestCondMeans(e, mode, cfg);
    case Un(op, x) => TestMeans(x, mode, cfg);
    case Compare(_, _, _) =>
    case LeftShift(op, l, r, known) => TestMeans(l, SIZED, cfg);
  }

  lemma {:induction false} TestCondMeans(e: PExpr, mode: Mode, cfg: Config)
    requires e.Cond? && !cfg.strict
    ensures var t := Test(e, mode, cfg);
            && t.sign == SignOf(e) && t.minWidth == PruneWidth(e)
            && Rank(t.mode) >= Rank(mode)
            && (Wide(t.mode) ==> t.ret == LosslessWidth(e, cfg))
            && (Rank(t.mode) < Rank(EXPAND) && ShiftFree(e) ==> t.ret == StandardWidth(e, cfg))
    decreases e, 0
  {
    TestMeans(e.t, mode, cfg);
    var t1 := Test(e.t, mode, cfg);
    TestMeans(e.f, t1.mode, cfg);
    TestMeans(e.t, Test(e.f, t1.mode, cfg).mode, cfg);
  }

  lemma {:induction false} TestBinaryMeans(e: PExpr, mode: Mode, cfg: Config)
    requires e.Binary? && !cfg.strict
    ensures var t := Test(e, mode, cfg);
            && t.sign == SignOf(e) && t.minWidth == PruneWidth(e)
            && Rank(t.mode) >= Rank(mode)
            && (Wide(t.mode) ==> t.ret == LosslessWidth(e, cfg))
            && (Rank(t.mode) < Rank(EXPAND) && ShiftFree(e) ==> t.ret == StandardWidth(e, cfg))
    decreases e, 0
  {
    TestMeans(e.r, mode, cfg);
    var r1 := Test(e.r, mode, cfg);
    TestMeans(e.l, r1.mode, cfg);
    TestMeans(e.r, Test(e.l, r1.mode, cfg).mode, cfg);
  }

  /** Retesting is stable: a test that ends wide returns what a test started lossless returns. */
  lemma RetestStable(e: PExpr, mode: Mode, cfg: Config)
    requires !cfg.strict && Wide(Test(e, mode, cfg).mode)
    ensures Test(e, mode, cfg).ret == Test(e, LOSSLESS, cfg).ret == Test(e, UPSIZE, cfg).ret
  {
    TestMeans(e, mode, cfg);
    TestMeans(e, LOSSLESS, cfg);
    TestMeans(e, UPSIZE, cfg);
  }

  /** Whether test_width ends with fix_width_. */
  predicate Operator(e: PExpr) {
    e.Binary? || e.Cond? || e.LeftShift? || (e.Un? && e.unOp.PContext?)
  }

  /** The width field is the returned width, raised to integer_width for an operator in UPSIZE mode. */
  lemma FieldWidth(e: PExpr, mode: Mode, cfg: Config)
    ensures var t := Test(e, mode, cfg);
            && t.width >= t.ret
            && (t.width != t.ret <==> Operator(e) && t.mode == UPSIZE && t.ret < cfg.integerWidth)
            && (t.width != t.ret ==> t.width == cfg.integerWidth)
  {
  }

  /** With strict widths an unsized literal lowers a lossless mode to unsized. */
  lemma StrictModeMayFall(cfg: Config)
    requires cfg.strict
    ensures Rank(Test(Number([V1], false, false, true), LOSSLESS, cfg).mode) < Rank(LOSSLESS)
  {
  }

  /** A shift gets a width below its left operand's exactly when the mode lets it grow, it is a
      left shift of an operand with a mode of its own, the amount is variable and may be more
      than 0, and the operand is itself wider than an integer. */
  lemma ShiftNarrowsExactly(op: ShiftOp, l: PExpr, r: PExpr, known: Option<int>, mode: Mode, cfg: Config)
    ensures var t := Test(LeftShift(op, l, r, known), mode, cfg);
            var l1, r1 := Test(l, SIZED, cfg), Test(r, SIZED, cfg);
            t.ret < l1.ret
            <==> && Rank(if mode == SIZED then l1.mode else mode) >= Rank(EXPAND)
                 && op == ShLeft && l1.mode != SIZED && known.None?
                 && ShiftGuess(r1.ret, r1.sign, known, cfg) > 0 && cfg.integerWidth < l1.ret
  {
  }

  /** The guess for a variable shift of a wide unsized literal is narrower than the literal. */
  lemma VariableShiftMayNarrow(cfg: Config)
    requires !cfg.strict && cfg.integerWidth > 0 && cfg.widthCap > 0
    ensures var n := Number(Fill(V1, cfg.integerWidth + 1), false, false, true);
            var e := LeftShift(ShLeft, n, Ident(0, 4, false, true), None);
            Test(e, SIZED, cfg).mode == LOSSLESS && Test(e, SIZED, cfg).ret < Test(n, SIZED, cfg).ret
  {
    assert TwosComplement.Pow2(4) == 16;
  }

  /** The larger of two widths. */
  predicate Larger(n: nat, a: nat, b: nat) {
    n >= a && n >= b && (n == a || n == b)
  }

  /** Both operands of a comparison get the larger of their own widths, the right one tested again when
      the left one widened the mode, and one bit more in an expanding mode below the integer width. */
  lemma CompareWidths(l: PExpr, r: PExpr, cfg: Config)
    ensures var r1 := Test(r, SIZED, cfg);
            var l1 := Test(l, r1.mode, cfg);
            var again := Wide(l1.mode) && !Wide(r1.mode);
            var rWidth := if again then Test(r, l1.mode, cfg).ret else r1.ret;
            var (lw, rw, m) := TestCompare(l, r, cfg);
            && m == (if again then Test(r, l1.mode, cfg).mode else l1.mode)
            && lw == rw
            && (if Rank(m) >= Rank(EXPAND) && l1.ret < cfg.integerWidth && rWidth < cfg.integerWidth
                then lw > 0 && Larger(lw - 1, l1.ret, rWidth) else Larger(lw, l1.ret, rWidth))
  {
  }

  /** A comparison whose mode ends wide compares at no less than both lossless widths, and one whose
      mode does not expand at the larger of the two widths that the standard gives. */
  lemma TestCompareMeans(l: PExpr, r: PExpr, cfg: Config)
    requires !cfg.strict
    ensures var (lw, rw, m) := TestCompare(l, r, cfg);
            && lw == rw && (Wide(m) ==> lw >= LosslessWidth(l, cfg) && rw >= LosslessWidth(r, cfg))
            && (Rank(m) < Rank(EXPAND) && ShiftFree(l) && ShiftFree(r) ==>
                  Larger(lw, StandardWidth(l, cfg), StandardWidth(r, cfg)))
  {
    TestMeans(r, SIZED, cfg);
    var r1 := Test(r, SIZED, cfg);
    TestMeans(l, r1.mode, cfg);
    TestMeans(r, Test(l, r1.mode, cfg).mode, cfg);
  }

  // ----- expanding modes -----

  /** The width without overflow when a literal without length counts as an integer at least. */
  function ExpandedWidth(e: PExpr, cfg: Config): nat {
    match e
    case Number(bits, hasLen, isSingle, _) =>
      if !hasLen && !isSingle && |bits| < cfg.integerWidth then cfg.integerWidth else |bits|
    case Ident(_, w, _, _) => w
    case Binary(op, l, r) =>
      var lw, rw := ExpandedWidth(l, cfg), ExpandedWidth(r, cfg);
      if op == PMul then lw + rw
      else if op == PAdd || op == PSub then 1 + (if lw > rw then lw else rw)
      else if lw > rw then lw else rw
    case Cond(_, t, f) =>
      var tw, fw := ExpandedWidth(t, cfg), ExpandedWidth(f, cfg);
      if tw > fw then tw else fw
    case Un(PContext(_), x) => ExpandedWidth(x, cfg)
    case _ => 1
  }

  /** No mode falls. */
  lemma StillExpand(e: PExpr, mode: Mode, cfg: Config)
    requires !cfg.strict
    ensures Rank(Test(e, mode, cfg).mode) >= Rank(mode)
  {
    TestMeans(e, mode, cfg);
  }

  /** A test that starts in EXPAND returns this width, unless the mode ends wide. */
  lemma {:induction false} ExpandMeans(e: PExpr, cfg: Config)
    requires !cfg.strict && ShiftFree(e) && !Wide(Test(e, EXPAND, cfg).mode)
    ensures Test(e, EXPAND, cfg).mode == EXPAND && Test(e, EXPAND, cfg).ret == ExpandedWidth(e, cfg)
  {
    match e
    case Number(_, _, _, _) =>
    case Ident(_, _, _, _) =>
    case Binary(op, l, r) =>
      StillExpand(r, EXPAND, cfg);
      StillExpand(l, Test(r, EXPAND, cfg).mode, cfg);
      StillExpand(r, Test(l, Test(r, EXPAND, cfg).mode, cfg).mode, cfg);
      ExpandMeans(r, cfg);
      ExpandMeans(l, cfg);
    case Cond(_, t, f) =>
      StillExpand(t, EXPAND, cfg);
      StillExpand(f, Test(t, EXPAND, cfg).mode, cfg);
      StillExpand(t, Test(f, Test(t, EXPAND, cfg).mode, cfg).mode, cfg);
      ExpandMeans(t, cfg);
      ExpandMeans(f, cfg);
    case Un(PContext(_), x) => ExpandMeans(x, cfg);
    case _ =>
  }

  lemma {:induction false} ExpandedIsEnough(e: PExpr, cfg: Config)
    requires ShiftFree(e)
    ensures ExpandedWidth(e, cfg) >= LosslessWidth(e, cfg)
  {
    match e
    case Binary(_, l, r) =>
      ExpandedIsEnough(l, cfg);
      ExpandedIsEnough(r, cfg);
    case Cond(_, t, f) =>
      ExpandedIsEnough(t, cfg);
      ExpandedIsEnough(f, cfg);
    case Un(PContext(_), x) => ExpandedIsEnough(x, cfg);
    case _ =>
  }

  /** In an expanding mode a left shift of an operand with a mode of its own grows by a known amount. */
  lemma KnownShiftGrows(l: PExpr, r: PExpr, n: nat, mode: Mode, cfg: Config)
    requires Test(l, SIZED, cfg).mode != SIZED && Test(r, SIZED, cfg).ret <= 63 && n <= cfg.widthCap
    requires Rank(if mode == SIZED then Test(l, SIZED, cfg).mode else mode) >= Rank(EXPAND)
    ensures Test(LeftShift(ShLeft, l, r, Some(n)), mode, cfg).ret == Test(l, SIZED, cfg).ret + n
  {
  }

  // ----- the same in place -----

  /** What is left of the tests of a pair of operands: the first is tested again when needed. */
  function PairTested(a: PExpr, b: PExpr, mode: Mode, cfg: Config): (Tested, Tested) {
    var a1 := Test(a, mode, cfg);
    var b1 := Test(b, a1.mode, cfg);
    (if Wide(b1.mode) && !Wide(a1.mode) then Test(a, b1.mode, cfg) else a1.(mode := b1.mode), b1)
  }

  datatype Shape =
    | SNumber(bits: Vec, hasLen: bool, isSingle: bool, sign: bool)
    | SIdent(id: nat, wid: nat, sign: bool, sized: bool)
    | SBinary(op: PBinOp)
    | SCond
    | SUn(unOp: PUnOp)
    | SCompare(cmp: CompOp)
    | SShift(shift: ShiftOp, known: Option<int>)

  predicate Built(s: Shape, ts: seq<PExpr>, e: PExpr) {
    match s
    case SNumber(b, h, i, g) => e == Number(b, h, i, g)
    case SIdent(i, w, g, z) => e == Ident(i, w, g, z)
    case SBinary(op) => |ts| == 2 && e == Binary(op, ts[0], ts[1])
    case SCond => |ts| == 3 && e == Cond(ts[0], ts[1], ts[2])
    case SUn(op) => |ts| == 1 && e == Un(op, ts[0])
    case SCompare(c) => |ts| == 2 && e == Compare(c, ts[0], ts[1])
    case SShift(op, k) => |ts| == 2 && e == LeftShift(op, ts[0], ts[1], k)
  }

  /** A parsed expression object: its shape is fixed, its test results are fields. */
  class PNode {
    const shape: Shape
    const kids: seq<PNode>
    ghost const parts: seq<PExpr>
    ghost const tree: PExpr
    ghost const repr: set<object>
    var exprWidth: nat
    var minWidth: nat
    var signedFlag: bool

    ghost predicate Valid()
      decreases repr
    {
      && this in repr
      && (forall i :: 0 <= i < |kids| ==>
            kids[i] in repr && kids[i].repr <= repr && this !in kids[i].repr && kids[i].Valid())
      && (forall i, j :: 0 <= i < j < |kids| ==> kids[i].repr !! kids[j].repr)
      && |parts| == |kids| && (forall i :: 0 <= i < |kids| ==> kids[i].tree == parts[i])
      && Built(shape, parts, tree)
    }

    ghost predicate Holds(t: Tested)
      reads this
    {
      exprWidth == t.width && minWidth == t.minWidth && signedFlag == t.sign
    }

    constructor (s: Shape, ks: seq<PNode>, ghost ts: seq<PExpr>, ghost e: PExpr, ghost r: set<object>)
      requires forall i :: 0 <= i < |ks| ==> ks[i] in r && ks[i].repr <= r && ks[i].Valid()
      requires forall i, j :: 0 <= i < j < |ks| ==> ks[i].repr !! ks[j].repr
      requires |ts| == |ks| && forall i :: 0 <= i < |ks| ==> ks[i].tree == ts[i]
      requires Built(s, ts, e)
      ensures Valid() && shape == s && kids == ks && tree == e && repr == r + {this}
    {
      shape, kids, parts, tree, repr := s, ks, ts, e, r + {this};
      exprWidth, minWidth, signedFlag := 0, 0, false;
    }

    method FixWidth(mode: Mode, cfg: Config) returns (width: nat)
      modifies this`exprWidth
      ensures width == old(exprWidth)
      ensures exprWidth == Fixed(width, minWidth, signedFlag, mode, cfg).width
    {
      width := exprWidth;
      if mode == UPSIZE && width < cfg.integerWidth {
        exprWidth := cfg.integerWidth;
      }
    }

    /** test_width: the mode is taken and returned, the fields are overwritten. */
    method TestWidth(mode: Mode, cfg: Config) returns (ret: nat, mode': Mode)
      requires Valid()
      modifies repr
      ensures Result(ret, mode', Test(tree, mode, cfg))
      decreases repr, 2
    {
      match shape
      case SNumber(_, _, _, _) => ret, mode' := TestLeaf(mode, cfg);
      case SIdent(_, _, _, _) => ret, mode' := TestLeaf(mode, cfg);
      case SBinary(_) => ret, mode' := TestBinary(mode, cfg);
      case SCond => ret, mode' := TestCond(mode, cfg);
      case SUn(_) => ret, mode' := TestUnary(mode, cfg);
      case SCompare(_) =>
        var lw, rw, m := TestOperands(kids[0], kids[1], cfg, repr - {this});
        exprWidth, minWidth, signedFlag := 1, 1, false;
        ret, mode' := 1, mode;
      case SShift(_, _) => ret, mode' := TestShift(mode, cfg);
    }

    ghost predicate Result(ret: nat, mode: Mode, t: Tested)
      reads this
    {
      ret == t.ret && mode == t.mode && Holds(t)
    }

    method TestLeaf(mode: Mode, cfg: Config) returns (ret: nat, mode': Mode)
      requires Valid() && (shape.SNumber? || shape.SIdent?)
      modifies this
      ensures Result(ret, mode', Test(tree, mode, cfg))
    {
      mode' := mode;
      if shape.SNumber? {
        exprWidth := |shape.bits|;
        minWidth, signedFlag := exprWidth, shape.sign;
        if !shape.hasLen && !shape.isSingle {
          if cfg.strict {
            exprWidth, mode' := cfg.integerWidth, UNSIZED;
          } else if Rank(mode) < Rank(LOSSLESS) {
            if exprWidth < cfg.integerWidth {
              exprWidth := cfg.integerWidth;
              if Rank(mode) < Rank(UNSIZED) {
                mode' := UNSIZED;
              }
            } else {
              mode' := LOSSLESS;
            }
          }
        }
      } else {
        exprWidth, minWidth, signedFlag := shape.wid, shape.wid, shape.sign;
        if !shape.sized && Rank(mode) < Rank(LOSSLESS) {
          mode' := LOSSLESS;
        }
      }
      ret := exprWidth;
    }

    /** Test a, then b in the mode that leaves, then a again if b made the mode wide. */
    static method TestPair(a: PNode, b: PNode, mode: Mode, cfg: Config, ghost inside: set<object>)
      returns (aw: nat, bw: nat, mode': Mode)
      requires a.Valid() && b.Valid() && a.repr !! b.repr && a.repr + b.repr <= inside
      modifies a.repr, b.repr
      ensures var (ta, tb) := PairTested(a.tree, b.tree, mode, cfg);
              aw == ta.ret && bw == tb.ret && mode' == ta.mode && a.Holds(ta) && b.Holds(tb)
      decreases inside, 3
    {
      var saved;
      aw, saved := a.TestWidth(mode, cfg);
      bw, mode' := b.TestWidth(saved, cfg);
      if Wide(mode') && !Wide(saved) {
        aw, mode' := a.TestWidth(mode', cfg);
      }
    }

    method TestBinary(mode: Mode, cfg: Config) returns (ret: nat, mode': Mode)
      requires Valid() && shape.SBinary?
      modifies repr
      ensures Result(ret, mode', Test(tree, mode, cfg))
      decreases repr, 1
    {
      var l, r := kids[0], kids[1];
      assert tree == Binary(shape.op, l.tree, r.tree);
      var rWidth, lWidth;
      rWidth, lWidth, mode' := TestPair(r, l, mode, cfg, repr - {this});
      ghost var (tr, tl) := PairTested(r.tree, l.tree, mode, cfg);
      assert Test(tree, mode, cfg) == BinaryTested(shape.op, tl, tr, cfg);
      ret, mode' := StoreBinary(shape.op, l, r, lWidth, rWidth, mode', cfg, tl, tr);
    }

    method StoreBinary(op: PBinOp, l: PNode, r: PNode, lWidth: nat, rWidth: nat, mode: Mode, cfg: Config,
                       ghost tl: Tested, ghost tr: Tested)
      returns (ret: nat, mode': Mode)
      requires l != this && r != this && l.Holds(tl) && r.Result(rWidth, mode, tr) && lWidth == tl.ret
      modifies this
      ensures Result(ret, mode', BinaryTested(op, tl, tr, cfg))
    {
      mode' := Mixed(mode, l.signedFlag, r.signedFlag);
      exprWidth := BinaryWidth(op, lWidth, rWidth, mode');
      minWidth := BinaryMin(op, l.minWidth, r.minWidth);
      signedFlag := l.signedFlag && r.signedFlag;
      ret := FixWidth(mode', cfg);
    }

    method TestCond(mode: Mode, cfg: Config) returns (ret: nat, mode': Mode)
      requires Valid() && shape.SCond?
      modifies repr
      ensures Result(ret, mode', Test(tree, mode, cfg))
      decreases repr, 1
    {
      var t, f := kids[1], kids[2];
      assert tree == Cond(kids[0].tree, t.tree, f.tree);
      var tWidth, fWidth;
      tWidth, fWidth, mode' := TestPair(t, f, mode, cfg, repr - {this});
      ghost var (tt, tf) := PairTested(t.tree, f.tree, mode, cfg);
      assert Test(tree, mode, cfg) == CondTested(tt, tf, cfg);
      ret, mode' := StoreCond(t, f, tWidth, fWidth, mode', cfg, tt, tf);
    }

    method StoreCond(t: PNode, f: PNode, tWidth: nat, fWidth: nat, mode: Mode, cfg: Config,
                     ghost tt: Tested, ghost tf: Tested)
      returns (ret: nat, mode': Mode)
      requires t != this && f != this && t.Result(tWidth, mode, tt) && f.Holds(tf) && fWidth == tf.ret
      modifies this
      ensures Result(ret, mode', CondTested(tt, tf, cfg))
    {
      mode' := Mixed(mode, t.signedFlag, f.signedFlag);
      exprWidth, minWidth := Max(tWidth, fWidth), Max(t.minWidth, f.minWidth);
      signedFlag := t.signedFlag && f.signedFlag;
      ret := FixWidth(mode', cfg);
    }

    method TestUnary(mode: Mode, cfg: Config) returns (ret: nat, mode': Mode)
      requires Valid() && shape.SUn?
      modifies repr
      ensures Result(ret, mode', Test(tree, mode, cfg))
      decreases repr, 1
    {
      var x := kids[0];
      if shape.unOp.PReduce? {
        var subWidth, subMode := x.TestWidth(SIZED, cfg);
        exprWidth, minWidth, signedFlag := 1, 1, false;
        ret, mode' := 1, mode;
      } else {
        ret, mode' := x.TestWidth(mode, cfg);
        exprWidth, minWidth, signedFlag := ret, x.minWidth, x.signedFlag;
        ret := FixWidth(mode', cfg);
      }
    }

    method TestShift(mode: Mode, cfg: Config) returns (ret: nat, mode': Mode)
      requires Valid() && shape.SShift?
      modifies repr
      ensures Result(ret, mode', Test(tree, mode, cfg))
      decreases repr, 1
    {
      var l, r := kids[0], kids[1];
      assert tree == LeftShift(shape.shift, l.tree, r.tree, shape.known);
      var rWidth, rMode := r.TestWidth(SIZED, cfg);
      var lWidth, lMode := l.TestWidth(SIZED, cfg);
      ghost var tl, tr := Test(l.tree, SIZED, cfg), Test(r.tree, SIZED, cfg);
      assert Test(tree, mode, cfg) == ShiftTested(shape.shift, tl, tr, shape.known, mode, cfg);
      ret, mode' := StoreShift(l, r, lWidth, lMode, rWidth, mode, cfg, tl, tr);
    }

    method StoreShift(l: PNode, r: PNode, lWidth: nat, lMode: Mode, rWidth: nat, mode: Mode, cfg: Config,
                      ghost tl: Tested, ghost tr: Tested)
      returns (ret: nat, mode': Mode)
      requires shape.SShift? && l != this && r != this
      requires l.Result(lWidth, lMode, tl) && r.Holds(tr) && rWidth == tr.ret
      modifies this
      ensures Result(ret, mode', ShiftTested(shape.shift, tl, tr, shape.known, mode, cfg))
    {
      exprWidth, signedFlag := lWidth, l.signedFlag;
      mode' := if mode == SIZED then lMode else mode;
      if Rank(mode') >= Rank(EXPAND) {
        var guess := ShiftGuess(rWidth, r.signedFlag, shape.known, cfg);
        exprWidth := ShiftWidth(shape.shift, lWidth, lMode, guess, shape.known.Some?, cfg);
        if shape.shift != ShLeft && mode' == LOSSLESS && signedFlag {
          mode' := UPSIZE;
        }
      }
      minWidth := if shape.shift == ShLeft then l.minWidth else UINT_MAX;
      ret := FixWidth(mode', cfg);
    }

    /** PEBComp::test_width on the operands: one width for both, one more when it may overflow. */
    static method TestOperands(l: PNode, r: PNode, cfg: Config, ghost inside: set<object>)
      returns (lw: nat, rw: nat, mode: Mode)
      requires l.Valid() && r.Valid() && l.repr !! r.repr && l.repr + r.repr <= inside
      modifies l.repr, r.repr
      ensures (lw, rw, mode) == TestCompare(l.tree, r.tree, cfg)
      decreases inside, 4
    {
      var rWidth, lWidth;
      rWidth, lWidth, mode := TestPair(r, l, SIZED, cfg, inside);
      lw, rw := lWidth, rWidth;
      if rWidth > lWidth {
        lw := rWidth;
      }
      if lWidth > rWidth {
        rw := lWidth;
      }
      if Rank(mode) >= Rank(EXPAND) {
        if lw < cfg.integerWidth {
          lw := lw + 1;
        }
        if rw < cfg.integerWidth {
          rw := rw + 1;
        }
      }
    }
  }
}
