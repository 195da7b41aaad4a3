/** Bit and part selects: parameter selects (qflow-org/iverilog/elab_expr.cc:4011-4420), the
    l-value and net forms of the same ranges, and the run-time index arithmetic of
    qflow-org/iverilog/netmisc.cc:192-380. One packed dimension throughout. */
module Addressing {
  import opened FourState
  import opened TwosComplement
  import opened Verinum
  import opened NetExpr
  import WidthSound

  /** The declared range of a vector. */
  datatype Range = Range(msb: int, lsb: int)

  /** [b+:w] and [b-:w]. */
  datatype Step = Up | Down

  predicate Reversed(r: Range) {
    r.msb < r.lsb
  }

  /** sb_to_idx: where an index lives in the stored vector. */
  function Canonical(r: Range, i: int): int {
    if Reversed(r) then r.lsb - i else i - r.lsb
  }

  // ----- constant selects of parameters -----

  /** The select of one bit at a defined index: x before the vector and after a sized one,
      the pad after an unsized one. */
  function BitAt(par: Num4, r: Range, i: int): Bit {
    var at := if r.msb >= r.lsb then i - r.lsb else r.lsb - i;
    if 0 <= at < |par.bits| then par.bits[at]
    else if at >= 0 && !par.hasLen then SignBit(par)
    else VX
  }

  /** P[i] for a constant i. */
  function ParamBit(par: Num4, r: Range, sel: Num4): Bit {
    if !Defined(sel.bits) then VX else BitAt(par, r, AsLong(sel))
  }

  function PartBit(par: Num4, off: int): Bit {
    if off < 0 then VX
    else if off < |par.bits| then par.bits[off]
    else if par.hasLen then VX
    else SignBit(par)
  }

  function PartBits(par: Num4, wid: nat, lsv: int): (v: Vec)
    ensures |v| == wid
  {
    seq(wid, k requires 0 <= k => PartBit(par, k + lsv))
  }

  /** param_part_select_bits. */
  method ParamPartSelectBits(par: Num4, wid: nat, lsv: int) returns (result: Vec)
    ensures result == PartBits(par, wid, lsv)
  {
    result := Fill(VX, wid);
    for idx := 0 to wid
      invariant |result| == wid
      invariant forall k :: 0 <= k < idx ==> result[k] == PartBit(par, k + lsv)
      invariant forall k :: idx <= k < wid ==> result[k] == VX
    {
      var off := idx + lsv;
      if off < 0 {
        continue;
      } else if off < |par.bits| {
        result := result[idx := par.bits[off]];
      } else if par.hasLen {
        continue;
      } else {
        result := result[idx := SignBit(par)];
      }
    }
  }

  datatype PartResult = OutOfOrder | Part(v: Vec)

  /** P[m:l] for defined m and l. */
  function ParamPart(par: Num4, r: Range, msv: int, lsv: int): PartResult {
    if (msv > lsv && r.msb < r.lsb) || (msv < lsv && r.msb >= r.lsb) then OutOfOrder
    else
      var base := if r.msb < r.lsb then r.lsb - lsv else lsv - r.lsb;
      Part(PartBits(par, 1 + Magnitude(msv - lsv), base))
  }

  /** The low end of P[b+:w] and P[b-:w] as the parameter code computes it. */
  function ParamBase(r: Range, b: int, w: nat, step: Step): int {
    if step == Up then
      (if r.msb < r.lsb then r.lsb - w + 1 - b else b - r.lsb)
    else
      (if r.msb < r.lsb then r.lsb - b else b - (r.lsb + w - 1))
  }

  /** P[b+:w] and P[b-:w] for a constant b. */
  function ParamIndexed(par: Num4, r: Range, base: Num4, w: nat, step: Step): (v: Vec)
    ensures |v| == w
  {
    if !Defined(base.bits) then Fill(VX, w) else PartBits(par, w, ParamBase(r, AsLong(base), w, step))
  }

  // ----- the forms agree bit for bit (section 5.2.1 of IEEE 1364-2005) -----

  /** The index of bit k of a select whose least significant index is `low`. */
  function IndexFrom(r: Range, low: int, k: int): int {
    if Reversed(r) then low - k else low + k
  }

  /** The declared indices count up from the bit at the lsb; an index on its other side reads x, and
      one past the stored bits reads x too, unless the parameter is unsized and goes on with its sign. */
  lemma DeclaredBits(par: Num4, r: Range, i: int)
    ensures var at := Magnitude(i - r.lsb);
            var above := i == r.lsb || (i > r.lsb <==> r.msb >= r.lsb);
            && (!above ==> Canonical(r, i) == 0 - at && BitAt(par, r, i) == VX)
            && (above ==> Canonical(r, i) == at)
            && (above && at < |par.bits| ==> BitAt(par, r, i) == par.bits[at])
            && (above && at >= |par.bits| ==>
                  BitAt(par, r, i) == if par.hasLen then VX else SignPad(par.bits, par.hasSign))
  {
  }

  lemma BitIsPartBit(par: Num4, r: Range, i: int)
    ensures BitAt(par, r, i) == PartBit(par, Canonical(r, i))
  {
  }

  /** A part select is refused exactly when it runs against the range; otherwise it holds the
      bits of its indices from l up to m, each as a bit select would read it. */
  lemma PartIsItsBits(par: Num4, r: Range, msv: int, lsv: int)
    ensures ParamPart(par, r, msv, lsv).OutOfOrder? <==> (if Reversed(r) then msv > lsv else msv < lsv)
    ensures ParamPart(par, r, msv, lsv).Part? ==>
              var v := ParamPart(par, r, msv, lsv).v;
              && |v| == 1 + Magnitude(msv - lsv)
              && IndexFrom(r, lsv, |v| - 1) == msv
              && forall k :: 0 <= k < |v| ==> v[k] == BitAt(par, r, IndexFrom(r, lsv, k))
  {
    var base := if r.msb < r.lsb then r.lsb - lsv else lsv - r.lsb;
    forall k: nat | k <= Magnitude(msv - lsv)
      ensures PartBits(par, 1 + Magnitude(msv - lsv), base)[k] == BitAt(par, r, IndexFrom(r, lsv, k))
    {
      BitIsPartBit(par, r, IndexFrom(r, lsv, k));
    }
  }

  /** Least significant index of an indexed part select. */
  function LowIndex(r: Range, b: int, w: nat, step: Step): int {
    if step == Up then (if Reversed(r) then b + w - 1 else b)
    else (if Reversed(r) then b else b - w + 1)
  }

  /** [b+:w] is the bits b to b+w-1 and [b-:w] the bits b-w+1 to b, in the order of the range. */
  lemma IndexedIsItsBits(par: Num4, r: Range, base: Num4, w: nat, step: Step, k: nat)
    requires Defined(base.bits) && k < w
    ensures var b := AsLong(base);
            var i := IndexFrom(r, LowIndex(r, b, w, step), k);
            && ParamIndexed(par, r, base, w, step)[k] == BitAt(par, r, i)
            && (if step == Up then b <= i < b + w else b - w < i <= b)
  {
    var b := AsLong(base);
    var i := IndexFrom(r, LowIndex(r, b, w, step), k);
    BitIsPartBit(par, r, i);
    assert Canonical(r, i) == k + ParamBase(r, b, w, step);
    assert PartBits(par, w, ParamBase(r, b, w, step))[k] == PartBit(par, k + ParamBase(r, b, w, step));
  }

  /** The three spellings of one range are one vector. */
  lemma SpellingsAgree(par: Num4, r: Range, base: Num4, w: nat, step: Step)
    requires Defined(base.bits) && w > 0
    ensures var low := LowIndex(r, AsLong(base), w, step);
            ParamPart(par, r, IndexFrom(r, low, w - 1), low) == Part(ParamIndexed(par, r, base, w, step))
  {
  }

  /** A select of one bit: all three indexed spellings of width one are the bit select. */
  lemma OneBitSpellings(par: Num4, r: Range, sel: Num4, step: Step)
    ensures ParamIndexed(par, r, sel, 1, step) == [ParamBit(par, r, sel)]
    ensures Defined(sel.bits) ==> ParamPart(par, r, AsLong(sel), AsLong(sel)) == Part([ParamBit(par, r, sel)])
  {
    if Defined(sel.bits) {
      var i := AsLong(sel);
      BitIsPartBit(par, r, i);
      assert ParamBase(r, i, 1, step) == Canonical(r, i);
      assert PartBits(par, 1, Canonical(r, i))[0] == PartBit(par, 0 + Canonical(r, i));
    }
  }

  // ----- three ways to the same interval -----

  /** rel_base of a procedural l-value. */
  function LvalBase(r: Range, b: int, w: nat, step: Step): int {
    var offset := if (r.msb < r.lsb && step == Up) || (r.msb > r.lsb && step == Down) then 1 - w else 0;
    Canonical(r, b) + offset
  }

  /** midx and lidx of a net l-value: both ends, swapped when needed. */
  method NetInterval(r: Range, b: int, w: nat, step: Step) returns (midx: int, lidx: int)
    requires w > 0
    ensures lidx == ParamBase(r, b, w, step) && midx == lidx + w - 1
  {
    midx := Canonical(r, b);
    if step == Up {
      lidx := Canonical(r, b + w - 1);
    } else {
      lidx := Canonical(r, b - w + 1);
    }
    if midx < lidx {
      midx, lidx := lidx, midx;
    }
  }

  /** The parameter form and the net form agree on every range; the procedural form agrees with
      them except for a [b-:w] of more than one bit on a vector declared [n:n]. */
  lemma AddressesCoincide(r: Range, b: int, w: nat, step: Step)
    requires w > 0
    ensures LvalBase(r, b, w, step) == ParamBase(r, b, w, step) <==> !(r.msb == r.lsb && step == Down && w > 1)
    ensures forall i: int :: ParamBase(r, b, w, step) <= Canonical(r, i) < ParamBase(r, b, w, step) + w
                             <==> if step == Up then b <= i < b + w else b - w < i <= b
  {
  }

  /** [0-:2] on a vector declared [0:0]: the procedural l-value starts at bit 0, the others one below. */
  lemma OneBitRangeDiffers()
    ensures LvalBase(Range(0, 0), 0, 2, Down) != ParamBase(Range(0, 0), 0, 2, Down) == -1
  {
  }

  // ----- run-time bases -----

  /** num_bits. */
  function NumBits(arg: int): nat {
    if arg < 0 then 1 + HalvingSteps(-arg - 1) else HalvingSteps(arg)
  }

  method CountBits(arg: int) returns (res: nat)
    ensures res == NumBits(arg)
  {
    var n := arg;
    res := 0;
    if n < 0 {
      n := -n - 1;
      res := res + 1;
    }
    while n != 0
      invariant n >= 0 && res + HalvingSteps(n) == NumBits(arg)
    {
      res := res + 1;
      n := n / 2;
    }
  }

  lemma NumBitsBound(n: int)
    ensures n >= 0 ==> n < Pow2(NumBits(n))
    ensures n < 0 ==> 0 - Pow2(NumBits(n) - 1) <= n
    ensures n > 0 ==> Pow2(NumBits(n) - 1) <= n
  {
    if n < 0 {
      HalvingBound(-n - 1);
    } else {
      HalvingBound(n);
      HalvingLow(n);
    }
  }

  const WORD: nat := 64

  /** The number made from a 64-bit word: above the word there are zeros, even if it was negative. */
  function WordConst(val: int, w: nat): Num4 {
    Num4(Encode(if val < 0 then val + Pow2(WORD) else val, w), true, true)
  }

  function PadTo(e: Expr, w: nat): Expr {
    if w <= Width(e) then e else Extend(e, w, Sign(e))
  }

  function CastSigned(e: Expr): Expr {
    Extend(e, Width(e), true)
  }

  function MakeAdd(e: Expr, val: int): Expr {
    if val == 0 then e
    else if val < 0 then Add(OpMinus, e, Const(WordConst(-val, Width(e))), Width(e), Sign(e))
    else Add(OpPlus, e, Const(WordConst(val, Width(e))), Width(e), Sign(e))
  }

  function MakeSub(val: int, e: Expr): Expr {
    Add(OpMinus, Const(WordConst(val, Width(e))), e, Width(e), Sign(e))
  }

  /** The constant that the address is corrected by. */
  function Offset(r: Range, w: nat, step: Step): int {
    if Reversed(r) then (if step == Up then r.lsb - (w - 1) else r.lsb)
    else (if step == Down then r.lsb + (w - 1) else r.lsb)
  }

  /** The width of a calculation with the constant n. */
  function AddressWidth(n: int, baseWidth: nat): nat {
    Max(NumBits(n), baseWidth) + 2
  }

  /** Whether an unsigned base of a reversed range is made signed for the calculation. */
  predicate Cast(r: Range, aw: nat) {
    r.lsb < 0 || NumBits(r.lsb + 1) <= aw
  }

  /** The base, padded to the width of the calculation and made signed if need be. */
  function AddressOperand(base: Expr, aw: nat, cast: bool): Expr {
    var padded := PadTo(base, aw);
    if cast && !Sign(base) then CastSigned(padded) else padded
  }

  function BackwardAddress(base: Expr, r: Range, offset: int): Expr {
    var aw := AddressWidth(offset, Width(base));
    MakeSub(offset, AddressOperand(base, aw, Cast(r, aw)))
  }

  function ForwardAddress(base: Expr, offset: int): Expr {
    if offset == 0 then base
    else MakeAdd(AddressOperand(base, AddressWidth(-offset, Width(base)), offset > 0), -offset)
  }

  /** normalize_variable_base, without a slice offset. */
  function Normalized(base: Expr, r: Range, w: nat, step: Step): Expr {
    if Reversed(r) then BackwardAddress(base, r, Offset(r, w, step)) else ForwardAddress(base, Offset(r, w, step))
  }

  /** When the calculation is right: signed, or never below zero; and a negative constant
      must not meet an address wider than a word. */
  predicate AddressFits(r: Range, offset: int, baseWidth: nat, baseSigned: bool, b: int) {
    Reversed(r) ==>
      && (baseSigned || Cast(r, AddressWidth(offset, baseWidth)) || b <= offset)
      && (offset >= 0 || AddressWidth(offset, baseWidth) <= WORD)
  }

  lemma PaddedBits(v: Vec, s: bool, w: nat)
    requires Defined(v) && |v| < w
    ensures var p := ExtendVec(v, s, w); p == Encode(Num(v, s), w) && ExtendVec(p, true, w) == p
  {
    WidthSound.ExtendEncodes(v, s, w);
  }

  /** b fits its width; with two bits more there is room for the correction. */
  lemma BaseRange(v: Vec, s: bool)
    requires |v| > 0
    ensures s ==> 0 - Pow2(|v| - 1) <= Num(v, s) < Pow2(|v| - 1)
    ensures !s ==> 0 <= Num(v, s) < Pow2(|v|)
  {
    if s {
      SignedRange(v);
    } else {
      ValueRange(v);
    }
  }

  /** The operands of the correction leave the top bit of the address free for its sign. */
  lemma Room(offset: int, b: int, bw: nat, w: nat)
    requires w == Max(NumBits(offset), bw) + 2 && 0 - Pow2(bw) <= b < Pow2(bw)
    ensures 0 - Pow2(w - 1) <= offset - b < Pow2(w - 1)
    ensures 0 - Pow2(w - 1) <= offset + b < Pow2(w - 1)
  {
    NumBitsBound(offset);
    Pow2Monotone(bw, w - 2);
    Pow2Monotone(NumBits(offset), w - 2);
    if offset < 0 {
      Pow2Monotone(NumBits(offset) - 1, w - 2);
    }
    assert Pow2(w - 1) == 2 * Pow2(w - 2);
  }

  lemma Subtracted(offset: int, b: int, w: nat)
    ensures AddVec(OpMinus, WordConst(offset, w).bits, Encode(b, w), w)
            == Encode((if offset < 0 then offset + Pow2(WORD) else offset) - b, w)
  {
    WidthSound.EncodedOperands(if offset < 0 then offset + Pow2(WORD) else offset, b, w);
  }

  lemma WordBelow(w: nat)
    requires w > WORD
    ensures Pow2(WORD) < Pow2(w)
  {
    Pow2Monotone(WORD, w - 1);
  }

  /** Two codes that read as the same number are the same code. */
  lemma SameCode(m: int, n: int, w: nat, signed: bool)
    requires Num(Encode(m, w), signed) == Num(Encode(n, w), signed)
    ensures Encode(m, w) == Encode(n, w)
  {
    EncodeOfValue(Encode(m, w), SignPad(Encode(m, w), signed));
    EncodeOfValue(Encode(n, w), SignPad(Encode(n, w), signed));
  }

  /** A word added below bit 64 is invisible; above it shifts the number. */
  lemma WordWraps(n: int, w: nat, signed: bool)
    requires w > 0
    ensures w <= WORD ==> Encode(n + Pow2(WORD), w) == Encode(n, w)
    ensures w > WORD && Fits(n, w, signed) ==> Num(Encode(n + Pow2(WORD), w), signed) != n
  {
    hide Pow2, Encode, Num, Fits;
    if w <= WORD {
      Pow2Add(WORD - w, w);
      EncodeCongruent(n, Pow2(WORD - w), w);
    } else if Fits(n, w, signed) {
      ExactWhenInRange(n, w, signed);
      if Num(Encode(n + Pow2(WORD), w), signed) == n {
        SameCode(n, n + Pow2(WORD), w, signed);
        var k := EncodeWitness(n + Pow2(WORD), n, w);
        MulBounded(Pow2(w), k);
        MulCommutes(k, Pow2(w));
        WordBelow(w);
      }
    }
  }

  lemma FitsHalf(n: int, w: nat, signed: bool)
    requires w > 0 && 0 - Pow2(w - 1) <= n < Pow2(w - 1) && (signed || n >= 0)
    ensures Fits(n, w, signed)
  {
    assert Pow2(w) == 2 * Pow2(w - 1);
  }

  lemma CodeOf(exact: int, n: int, w: nat, signed: bool, wrapped: bool)
    requires w > 0 && 0 - Pow2(w - 1) <= exact < Pow2(w - 1)
    requires n == if wrapped then exact + Pow2(WORD) else exact
    ensures Num(Encode(n, w), signed) == exact <==> (signed || exact >= 0) && (!wrapped || w <= WORD)
  {
    ValueRange(Encode(n, w));
    if signed || exact >= 0 {
      FitsHalf(exact, w, signed);
      ExactWhenInRange(exact, w, signed);
      if wrapped {
        WordWraps(exact, w, signed);
      }
    }
  }

  /** What the correction computes, by the parts of the calculation. */
  lemma ReversedValue(offset: int, b: int, w: nat, signed: bool)
    requires w > 0 && 0 - Pow2(w - 1) <= offset - b < Pow2(w - 1)
    ensures var v := AddVec(OpMinus, WordConst(offset, w).bits, Encode(b, w), w);
            Num(v, signed) == offset - b <==> (signed || b <= offset) && (offset >= 0 || w <= WORD)
  {
    var n := (if offset < 0 then offset + Pow2(WORD) else offset) - b;
    Subtracted(offset, b, w);
    CodeOf(offset - b, n, w, signed, offset < 0);
  }

  lemma ForwardValue(val: int, b: int, w: nat, signed: bool)
    requires w > 0 && val != 0 && 0 - Pow2(w - 1) <= b + val < Pow2(w - 1)
    requires signed || b + val >= 0
    ensures var v := if val < 0 then AddVec(OpMinus, Encode(b, w), WordConst(-val, w).bits, w)
                     else AddVec(OpPlus, Encode(b, w), WordConst(val, w).bits, w);
            Num(v, signed) == b + val
  {
    WidthSound.EncodedOperands(b, Magnitude(val), w);
    FitsHalf(b + val, w, signed);
    ExactWhenInRange(b + val, w, signed);
  }

  lemma CastKeepsBits(e: Expr, env: Env)
    ensures Eval(CastSigned(e), env) == ExtendVec(Eval(e, env), true, Width(e))
  {
  }

  lemma OperandValue(base: Expr, env: Env, aw: nat, cast: bool)
    requires |Eval(base, env)| == Width(base) && Defined(Eval(base, env)) && Width(base) < aw
    ensures var e := AddressOperand(base, aw, cast);
            Eval(e, env) == Encode(Num(Eval(base, env), Sign(base)), aw) && Width(e) == aw
                && Sign(e) == (Sign(base) || cast)
  {
    var padded := PadTo(base, aw);
    PaddedBits(Eval(base, env), Sign(base), aw);
    assert Eval(padded, env) == ExtendVec(Eval(base, env), Sign(base), aw) && Width(padded) == aw;
    CastKeepsBits(padded, env);
  }

  lemma ReversedExact(e: Expr, env: Env, offset: int, b: int, aw: nat)
    requires aw > 0 && Width(e) == aw && Eval(e, env) == Encode(b, aw)
    requires 0 - Pow2(aw - 1) <= offset - b < Pow2(aw - 1)
    ensures Defined(Eval(MakeSub(offset, e), env))
    ensures Num(Eval(MakeSub(offset, e), env), Sign(MakeSub(offset, e))) == offset - b
            <==> (Sign(e) || b <= offset) && (offset >= 0 || aw <= WORD)
  {
    assert Eval(MakeSub(offset, e), env) == AddVec(OpMinus, WordConst(offset, aw).bits, Encode(b, aw), aw);
    ReversedValue(offset, b, aw, Sign(e));
  }

  predicate Reads(n: Expr, env: Env, value: int) {
    Defined(Eval(n, env)) && Num(Eval(n, env), Sign(n)) == value
  }

  lemma ForwardExact(e: Expr, env: Env, val: int, b: int, aw: nat)
    requires aw > 0 && Width(e) == aw && Eval(e, env) == Encode(b, aw) && val != 0
    requires 0 - Pow2(aw - 1) <= b + val < Pow2(aw - 1) && (Sign(e) || b + val >= 0)
    ensures Reads(MakeAdd(e, val), env, b + val)
  {
    assert Eval(MakeAdd(e, val), env)
           == if val < 0 then AddVec(OpMinus, Encode(b, aw), WordConst(-val, aw).bits, aw)
              else AddVec(OpPlus, Encode(b, aw), WordConst(val, aw).bits, aw);
    ForwardValue(val, b, aw, Sign(e));
  }

  lemma BaseBound(base: Expr, env: Env)
    requires Width(base) > 0 && |Eval(base, env)| == Width(base)
    ensures var b := Num(Eval(base, env), Sign(base));
            0 - Pow2(Width(base)) <= b < Pow2(Width(base)) && (Sign(base) || b >= 0)
  {
    BaseRange(Eval(base, env), Sign(base));
    assert Pow2(Width(base)) == 2 * Pow2(Width(base) - 1);
  }

  lemma BackwardExact(base: Expr, env: Env, r: Range, offset: int, b: int)
    requires Reversed(r) && Width(base) > 0 && b == Num(Eval(base, env), Sign(base))
    requires |Eval(base, env)| == Width(base) && Defined(Eval(base, env))
    ensures var n := BackwardAddress(base, r, offset);
            && Defined(Eval(n, env))
            && (Num(Eval(n, env), Sign(n)) == offset - b <==> AddressFits(r, offset, Width(base), Sign(base), b))
  {
    var aw := AddressWidth(offset, Width(base));
    BaseBound(base, env);
    OperandValue(base, env, aw, Cast(r, aw));
    Room(offset, b, Width(base), aw);
    ReversedExact(AddressOperand(base, aw, Cast(r, aw)), env, offset, b, aw);
  }

  lemma ForwardCorrected(base: Expr, env: Env, offset: int, aw: nat, cast: bool, b: int)
    requires Width(base) > 0 && b == Num(Eval(base, env), Sign(base)) && offset != 0
    requires |Eval(base, env)| == Width(base) && Defined(Eval(base, env))
    requires aw == AddressWidth(-offset, Width(base)) && cast == (offset > 0)
    ensures Reads(MakeAdd(AddressOperand(base, aw, cast), -offset), env, b + -offset)
  {
    hide Pow2, Value, Encode, Eval, AddressOperand, MakeAdd, Reads, NumBits, Num;
    BaseBound(base, env);
    OperandValue(base, env, aw, cast);
    Room(-offset, b, Width(base), aw);
    ForwardExact(AddressOperand(base, aw, cast), env, -offset, b, aw);
  }

  lemma ForwardReads(base: Expr, env: Env, offset: int, b: int)
    requires Width(base) > 0 && b == Num(Eval(base, env), Sign(base))
    requires |Eval(base, env)| == Width(base) && Defined(Eval(base, env))
    ensures Reads(ForwardAddress(base, offset), env, b - offset)
  {
    if offset == 0 {
      assert Reads(base, env, b);
    } else {
      ForwardCorrected(base, env, offset, AddressWidth(-offset, Width(base)), offset > 0, b);
    }
  }

  /** The run-time address of an indexed select is the address that a constant index would
      give, for every value of the base, exactly when the calculation fits. */
  lemma NormalizedExactness(base: Expr, env: Env, r: Range, w: nat, step: Step)
    requires w > 0 && Width(base) > 0
    requires |Eval(base, env)| == Width(base) && Defined(Eval(base, env))
    ensures var b := Num(Eval(base, env), Sign(base));
            var n := Normalized(base, r, w, step);
            && Defined(Eval(n, env))
            && (Num(Eval(n, env), Sign(n)) == ParamBase(r, b, w, step)
                <==> AddressFits(r, Offset(r, w, step), Width(base), Sign(base), b))
  {
    var b := Num(Eval(base, env), Sign(base));
    if Reversed(r) {
      BackwardExact(base, env, r, Offset(r, w, step), b);
    } else {
      ForwardReads(base, env, Offset(r, w, step), b);
    }
  }

  lemma SelectOfParam(par: Num4, n: Expr, env: Env, w: nat, p: int)
    requires w > 0 && Defined(Eval(n, env)) && Num(Eval(n, env), Sign(n)) == p
    ensures Eval(Select(Const(par), n, w, false), env) == PartBits(par, w, p)
            <==> par.hasLen || p + w <= |par.bits| || SignBit(par) == VX
  {
    var a, b := SelectVec(par.bits, p, w), PartBits(par, w, p);
    assert Eval(Select(Const(par), n, w, false), env) == a;
    if par.hasLen || p + w <= |par.bits| || SignBit(par) == VX {
      forall k: nat | k < w
        ensures a[k] == b[k]
      {
        assert b[k] == PartBit(par, k + p);
      }
    } else {
      assert a[w - 1] == VX && b[w - 1] == PartBit(par, w - 1 + p);
    }
  }

  /** A run-time select of a parameter is the constant select of the same index, exactly when the
      parameter is sized, or no selected position lies above its bits, or it is padded with x. */
  lemma VariableSelectAgrees(par: Num4, base: Expr, env: Env, r: Range, w: nat, step: Step)
    requires w > 0 && Width(base) > 0
    requires |Eval(base, env)| == Width(base) && Defined(Eval(base, env))
    requires var b := Num(Eval(base, env), Sign(base)); AddressFits(r, Offset(r, w, step), Width(base), Sign(base), b)
    ensures var n := Normalized(base, r, w, step);
            var p := ParamBase(r, Num(Eval(base, env), Sign(base)), w, step);
            Eval(Select(Const(par), n, w, false), env) == PartBits(par, w, p)
            <==> par.hasLen || p + w <= |par.bits| || SignBit(par) == VX
  {
    NormalizedExactness(base, env, r, w, step);
    var n := Normalized(base, r, w, step);
    SelectOfParam(par, n, env, w, Num(Eval(n, env), Sign(n)));
  }

  lemma {:induction false} HalvingNext(m: nat)
    ensures HalvingSteps(m + 1) <= HalvingSteps(m) + 1
  {
    if m > 0 {
      if m % 2 == 1 {
        assert (m + 1) / 2 == m / 2 + 1;
        HalvingNext(m / 2);
      }
    }
  }

  /** Downward selects are always calculated signed; an upward one may not be. */
  lemma DownIsSigned(r: Range, w: nat, baseWidth: nat)
    requires Reversed(r)
    ensures Cast(r, AddressWidth(Offset(r, w, Down), baseWidth))
  {
    if r.lsb >= 0 {
      HalvingNext(r.lsb);
    }
  }

  lemma SmallNumbers()
    ensures NumBits(64) == 7 && NumBits(4) == 3
  {
    assert HalvingSteps(1) == 1 && HalvingSteps(2) == 2 && HalvingSteps(4) == 3;
    assert HalvingSteps(8) == 4 && HalvingSteps(16) == 5 && HalvingSteps(32) == 6;
  }

  /** A 3-bit unsigned index into [0:63] with [b+:60] falls below zero unseen: for b = 7 the
      address should be -3. */
  lemma UnsignedAddressWraps(env: Env)
    requires env(0) == Encode(7, 3)
    ensures var r := Range(0, 63);
            var n := Normalized(Signal(0, 3, false, false), r, 60, Up);
            ParamBase(r, 7, 60, Up) == -3 && Num(Eval(n, env), Sign(n)) != -3
  {
    var base := Signal(0, 3, false, false);
    ExactWhenInRange(7, 3, false);
    assert Num(Eval(base, env), false) == 7;
    SmallNumbers();
    NormalizedExactness(base, env, Range(0, 63), 60, Up);
  }

  /** A 63-bit index into [-6:-5]: the address needs 65 bits, where the constant -5 is 2^64 - 5. */
  lemma NegativeOffsetWraps(env: Env)
    requires env(0) == Fill(V0, 63)
    ensures var r := Range(-6, -5);
            var n := Normalized(Signal(0, 63, false, false), r, 1, Down);
            ParamBase(r, 0, 1, Down) == -5 && Num(Eval(n, env), Sign(n)) != -5
  {
    var r := Range(-6, -5);
    var base := Signal(0, 63, false, false);
    ZeroValue(env(0));
    assert Eval(base, env) == env(0) && Num(env(0), false) == 0;
    assert Offset(r, 1, Down) == -5 && AddressWidth(-5, 63) >= 65;
    NormalizedExactness(base, env, r, 1, Down);
  }
}
