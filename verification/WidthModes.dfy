/** Width inference read off the operands of a tree: which of them take part, and what they make of
    its width, its sign and its mode (qflow-org/iverilog/elab_expr.cc:259-344, 5549-5579). */
module WidthModes {
  import opened FourState
  import opened Verinum
  import opened NetExpr
  import opened WidthTest
  import WidthSound

  /** The operands that take their width and sign from the context of e. */
  function Contextual(e: PExpr): seq<PExpr> {
    match e
    case Binary(_, l, r) => Contextual(l) + Contextual(r)
    case Cond(_, t, f) => Contextual(t) + Contextual(f)
    case Un(PContext(_), x) => Contextual(x)
    case LeftShift(_, l, _, _) => Contextual(l)
    case _ => [e]
  }

  /** The width of such an operand by itself, a literal without length having the one given. */
  function OwnWidth(x: PExpr, unsized: nat): nat {
    if x.Ident? then x.wid
    else if x.Number? then (if x.hasLen || x.isSingle then |x.bits| else unsized)
    else 1
  }

  predicate OwnSign(x: PExpr) {
    (x.Ident? && x.sign) || (x.Number? && x.sign)
  }

  lemma OnlyItself(e: PExpr)
    requires e.Number? || e.Ident? || e.Compare? || (e.Un? && e.unOp.PReduce?)
    ensures e in Contextual(e) && forall x :: x in Contextual(e) ==> x == e
  {
    assert Contextual(e) == [e];
  }

  /** The standard width is that of the widest operand, and the sign is signed when every operand is. */
  lemma {:induction false} WidestOperand(e: PExpr, cfg: Config)
    ensures exists x :: x in Contextual(e) && OwnWidth(x, cfg.integerWidth) == StandardWidth(e, cfg)
    ensures forall x :: x in Contextual(e) ==> OwnWidth(x, cfg.integerWidth) <= StandardWidth(e, cfg)
    ensures SignOf(e) <==> forall x :: x in Contextual(e) ==> OwnSign(x)
  {
    match e
    case Binary(_, l, r) =>
      WidestOperand(l, cfg);
      WidestOperand(r, cfg);
    case Cond(_, t, f) =>
      WidestOperand(t, cfg);
      WidestOperand(f, cfg);
    case Un(op, x) =>
      if op.PContext? {
        WidestOperand(x, cfg);
      } else {
        OnlyItself(e);
      }
    case LeftShift(_, l, _, _) => WidestOperand(l, cfg);
    case _ => OnlyItself(e);
  }

  /** An operand whose width is not settled by the standard: a variable without a size, or an unsized
      literal that does not fit an integer. */
  predicate Unbounded(x: PExpr, cfg: Config) {
    || (x.Ident? && !x.sized)
    || (x.Number? && !x.hasLen && !x.isSingle && |x.bits| >= cfg.integerWidth)
  }

  predicate Unsized(x: PExpr, cfg: Config) {
    x.Number? && !x.hasLen && !x.isSingle && |x.bits| < cfg.integerWidth
  }

  ghost predicate SomeUnbounded(e: PExpr, cfg: Config) {
    exists x :: x in Contextual(e) && Unbounded(x, cfg)
  }

  ghost predicate SomeUnsized(e: PExpr, cfg: Config) {
    exists x :: x in Contextual(e) && Unsized(x, cfg)
  }

  ghost predicate EndsAsItShould(e: PExpr, mode: Mode, last: Mode, cfg: Config) {
    if Wide(mode) || SomeUnbounded(e, cfg) then Wide(last)
    else last == if mode == SIZED && SomeUnsized(e, cfg) then UNSIZED else mode
  }

  lemma OperandEnds(e: PExpr, mode: Mode, cfg: Config)
    requires !cfg.strict && (e.Number? || e.Ident? || e.Compare? || (e.Un? && e.unOp.PReduce?))
    ensures EndsAsItShould(e, mode, Test(e, mode, cfg).mode, cfg)
  {
    OnlyItself(e);
  }

  /** Two operands tested in turn, the second in the mode that the first one leaves. */
  lemma PairEnds(e: PExpr, first: PExpr, second: PExpr, mode: Mode, cfg: Config)
    requires Contextual(e) == Contextual(first) + Contextual(second)
          || Contextual(e) == Contextual(second) + Contextual(first)
    requires EndsAsItShould(first, mode, Test(first, mode, cfg).mode, cfg)
    requires var m := Test(first, mode, cfg).mode; EndsAsItShould(second, m, Test(second, m, cfg).mode, cfg)
    ensures var m := Test(first, mode, cfg).mode; EndsAsItShould(e, mode, Test(second, m, cfg).mode, cfg)
  {
    hide Test, Contextual, Unbounded, Unsized;
    assert SomeUnbounded(e, cfg) <==> SomeUnbounded(first, cfg) || SomeUnbounded(second, cfg);
    assert SomeUnsized(e, cfg) <==> SomeUnsized(first, cfg) || SomeUnsized(second, cfg);
  }

  lemma SameOperands(e: PExpr, x: PExpr, mode: Mode, last: Mode, cfg: Config)
    requires Contextual(e) == Contextual(x) && EndsAsItShould(x, mode, last, cfg)
    ensures EndsAsItShould(e, mode, last, cfg)
  {
  }

  /** Testing an operand again, and mixed signs, do not make a wide mode anything else. */
  lemma AfterPair(e: PExpr, mode: Mode, last: Mode, cfg: Config)
    requires !cfg.strict && EndsAsItShould(e, mode, last, cfg)
    requires e.Binary? ==> last == Test(e.l, Test(e.r, mode, cfg).mode, cfg).mode
    requires e.Cond? ==> last == Test(e.f, Test(e.t, mode, cfg).mode, cfg).mode
    requires e.Binary? || e.Cond?
    ensures EndsAsItShould(e, mode, Test(e, mode, cfg).mode, cfg)
  {
    hide SomeUnbounded, SomeUnsized, TestNumber, ShiftTested;
    if e.Binary? {
      StillExpand(e.r, last, cfg);
    } else {
      StillExpand(e.t, last, cfg);
    }
  }

  /** The mode of a tree without shifts ends wide exactly when it starts so or some operand has no
      bounded width; otherwise an unsized literal makes a sized mode unsized, and nothing else counts. */
  lemma {:induction false} ModeMeans(e: PExpr, mode: Mode, cfg: Config)
    requires !cfg.strict && ShiftFree(e)
    ensures EndsAsItShould(e, mode, Test(e, mode, cfg).mode, cfg)
  {
    hide EndsAsItShould;
    if e.Binary? {
      ModeMeans(e.r, mode, cfg);
      ModeMeans(e.l, Test(e.r, mode, cfg).mode, cfg);
      PairEnds(e, e.r, e.l, mode, cfg);
      AfterPair(e, mode, Test(e.l, Test(e.r, mode, cfg).mode, cfg).mode, cfg);
    } else if e.Cond? {
      ModeMeans(e.t, mode, cfg);
      ModeMeans(e.f, Test(e.t, mode, cfg).mode, cfg);
      PairEnds(e, e.t, e.f, mode, cfg);
      AfterPair(e, mode, Test(e.f, Test(e.t, mode, cfg).mode, cfg).mode, cfg);
    } else if e.Un? && e.unOp.PContext? {
      ModeMeans(e.x, mode, cfg);
      SameOperands(e, e.x, mode, Test(e, mode, cfg).mode, cfg);
    } else {
      OperandEnds(e, mode, cfg);
    }
  }

  /** A lossless mode is given up for a calculation that mixes signs or shifts a signed value right. */
  predicate Untrusted(e: PExpr) {
    match e
    case Binary(_, l, r) => SignOf(l) != SignOf(r) || Untrusted(l) || Untrusted(r)
    case Cond(_, t, f) => SignOf(t) != SignOf(f) || Untrusted(t) || Untrusted(f)
    case Un(PContext(_), x) => Untrusted(x)
    case LeftShift(op, l, _, _) => op != ShLeft && SignOf(l)
    case _ => false
  }

  lemma {:induction false} LosslessMode(e: PExpr, cfg: Config)
    requires !cfg.strict
    ensures Test(e, LOSSLESS, cfg).mode == if Untrusted(e) then UPSIZE else LOSSLESS
  {
    match e
    case Binary(_, l, r) =>
      LosslessMode(l, cfg);
      LosslessMode(r, cfg);
      TestMeans(l, LOSSLESS, cfg);
      TestMeans(r, LOSSLESS, cfg);
      TestMeans(l, UPSIZE, cfg);
    case Cond(_, t, f) =>
      LosslessMode(t, cfg);
      LosslessMode(f, cfg);
      TestMeans(t, LOSSLESS, cfg);
      TestMeans(f, LOSSLESS, cfg);
      TestMeans(f, UPSIZE, cfg);
    case Un(op, x) =>
      if op.PContext? {
        LosslessMode(x, cfg);
      }
    case LeftShift(_, l, _, _) => TestMeans(l, SIZED, cfg);
    case _ =>
  }

  function Length(x: PExpr): nat {
    if x.Number? then |x.bits| else OwnWidth(x, 0)
  }

  /** Where pruning is not disabled, the pruning width is that of the longest operand. */
  lemma {:induction false} LongestOperand(e: PExpr)
    requires WidthSound.LowBitsOnly(e)
    ensures exists x :: x in Contextual(e) && Length(x) == PruneWidth(e)
    ensures forall x :: x in Contextual(e) ==> Length(x) <= PruneWidth(e)
  {
    match e
    case Binary(_, l, r) =>
      LongestOperand(l);
      LongestOperand(r);
    case Cond(_, t, f) =>
      LongestOperand(t);
      LongestOperand(f);
    case Un(op, x) =>
      if op.PContext? {
        LongestOperand(x);
      } else {
        OnlyItself(e);
      }
    case LeftShift(_, l, _, _) => LongestOperand(l);
    case _ => OnlyItself(e);
  }
}
