/** Loops over whole numbers in the number class and the system functions: long division
    (qflow-org/iverilog/verinum.cc:1347-1566), which NetEBDiv folds with
    (qflow-org/iverilog/eval_tree.cc:799-832), and $clog2 (qflow-org/iverilog/eval_tree.cc:1639-1695). */
module Division {
  import opened FourState
  import opened TwosComplement
  import opened Verinum
  import opened NetExpr
  import OperatorMeaning

  /** A defined number without length or sign, as the long division works on. */
  predicate Natural(v: Num4) {
    |v.bits| > 0 && Defined(v.bits) && !v.hasLen && !v.hasSign
  }

  // ----- shifts -----

  /** operator << on an unsized number. */
  method ShiftUp(that: Num4, shift: nat) returns (res: Num4)
    requires Natural(that)
    ensures Natural(res) && IntOf(res) == Pow2(shift) * IntOf(that)
  {
    var len := |that.bits| + shift;
    var bits := Fill(V0, len);
    for idx := shift to len
      invariant |bits| == len
      invariant forall j :: 0 <= j < len ==> bits[j] == if shift <= j < idx then that.bits[j - shift] else V0
    {
      bits := bits[idx := that.bits[idx - shift]];
    }
    assert bits == Fill(V0, shift) + that.bits;
    ZerosBelow(that.bits, shift);
    res := Trim(Num4(bits, false, false));
  }

  /** operator >> by one on a number without sign. */
  method ShiftDown(that: Num4) returns (res: Num4)
    requires |that.bits| > 0 && Defined(that.bits) && !that.hasSign
    ensures |res.bits| > 0 && Defined(res.bits) && !res.hasSign && res.hasLen == that.hasLen
    ensures IntOf(res) == IntOf(that) / 2
  {
    var len := |that.bits|;
    if 1 >= len {
      res := Num4([V0], that.hasLen, false);
      assert that.bits[1..] == [] && res.bits[1..] == [];
      return;
    }
    var size := if that.hasLen then len else len - 1;
    var bits := Fill(V0, size);
    for idx := 1 to len
      invariant |bits| == size
      invariant forall j :: 0 <= j < size ==> bits[j] == if j < idx - 1 then that.bits[j + 1] else V0
    {
      bits := bits[idx - 1 := that.bits[idx]];
    }
    assert bits == that.bits[1..] + Fill(V0, size - (len - 1));
    ValueExtend(that.bits[1..], V0, size - (len - 1));
    res := Trim(Num4(bits, that.hasLen, false));
  }

  // ----- long division -----

  lemma HighZeros(v: Vec, k: nat)
    requires k <= |v| && Defined(v) && forall j :: k <= j < |v| ==> v[j] == V0
    ensures Value(v, V0) < Pow2(k)
    ensures k > 0 && v[k - 1] == V1 ==> Pow2(k - 1) <= Value(v, V0)
  {
    ValueSplit(v, k, V0);
    ValueRange(v[..k]);
    assert v[k..] == Fill(V0, |v| - k);
    ZeroValue(Fill(V0, |v| - k));
    if k > 0 && v[k - 1] == V1 {
      ValueSplit(v, k - 1, V0);
      ValueRange(v[..k - 1]);
      ValueRange(v[k..]);
      assert v[k - 1..][1..] == v[k..];
      assert Value(v[k - 1..], V0) == 1 + 2 * Value(v[k..], V0);
    }
  }

  /** The number of bits up to the highest 1. */
  method SignificantBits(v: Num4) returns (wid: nat)
    requires Natural(v)
    ensures IntOf(v) < Pow2(wid)
    ensures wid > 0 ==> Pow2(wid - 1) <= IntOf(v)
  {
    wid := |v.bits|;
    while wid > 0 && v.bits[wid - 1] == V0
      invariant 0 <= wid <= |v.bits|
      invariant forall j :: wid <= j < |v.bits| ==> v.bits[j] == V0
    {
      wid := wid - 1;
    }
    HighZeros(v.bits, wid);
  }

  lemma SetBit(v: Vec, k: nat)
    requires k < |v| && v[k] == V0
    ensures Value(v[k := V1], V0) == Value(v, V0) + Pow2(k)
  {
    var u := v[k := V1];
    ValueSplit(v, k, V0);
    ValueSplit(u, k, V0);
    assert u[..k] == v[..k];
    assert u[k..][1..] == v[k..][1..];
    MulDistrib(Pow2(k), Value(v[k..], V0), 1);
  }

  /** The remainder is below the divisor as shifted so far, and with the quotient bits found
      so far makes up the dividend. */
  predicate Remaining(num: int, den: int, n: int, q: int, idx: nat) {
    n == num + den * q && 0 <= num < den * Pow2(idx)
  }

  lemma TakeBit(num: int, den: int, n: int, q: int, idx: nat)
    requires idx > 0 && den > 0 && Remaining(num, den, n, q, idx)
    ensures var part := den * Pow2(idx - 1);
            if part <= num then Remaining(num - part, den, n, q + Pow2(idx - 1), idx - 1)
            else Remaining(num, den, n, q, idx - 1)
  {
    MulDistrib(den, q, Pow2(idx - 1));
    MulAssoc(den, 2, Pow2(idx - 1));
    assert Pow2(idx) == 2 * Pow2(idx - 1);
    assert den * (2 * Pow2(idx - 1)) == 2 * (den * Pow2(idx - 1));
  }

  /** What the widths promise: the shifted divisor is large enough. */
  lemma FirstRemainder(n: int, den: int, nwid: nat, dwid: nat)
    requires 0 <= n < Pow2(nwid) && 0 < dwid <= nwid && Pow2(dwid - 1) <= den
    ensures Remaining(n, den, n, 0, nwid - dwid + 1)
  {
    var k := nwid - dwid + 1;
    Pow2Add(dwid - 1, k);
    MulMonotone(Pow2(k), Pow2(dwid - 1), den);
    MulCommutes(Pow2(k), den);
    MulCommutes(Pow2(k), Pow2(dwid - 1));
    assert den * 0 == 0;
  }

  lemma HalveShifted(den: int, idx: nat)
    requires idx > 1
    ensures (Pow2(idx - 1) * den) / 2 == Pow2(idx - 2) * den
  {
    MulAssoc(2, Pow2(idx - 2), den);
  }

  lemma SmallerDivisor(n: int, den: int, nwid: nat, dwid: nat)
    requires 0 <= n < Pow2(nwid) && nwid < dwid && Pow2(dwid - 1) <= den
    ensures n / den == 0 && n % den == n
  {
    Pow2Monotone(nwid, dwid - 1);
    ModUnique(n, den, 0, n);
  }

  /** The restoring loop: quotient and remainder, bit by bit from the top. */
  method LongDivision(num: Num4, den: Num4, count: nat, shifted: Num4) returns (quotient: Vec, rest: Num4)
    requires Natural(num) && Natural(den) && Natural(shifted) && count > 0 && IntOf(den) > 0
    requires Remaining(IntOf(num), IntOf(den), IntOf(num), 0, count) && IntOf(shifted) == Pow2(count - 1) * IntOf(den)
    ensures Natural(rest) && IntOf(rest) == IntOf(num) % IntOf(den) && |rest.bits| >= |num.bits|
    ensures |quotient| == count && Defined(quotient) && Value(quotient, V0) == IntOf(num) / IntOf(den)
  {
    ghost var n, d := IntOf(num), IntOf(den);
    quotient := Fill(V0, count);
    rest := num;
    var part := shifted;
    var idx := count;
    ZeroValue(Fill(V0, count));
    while idx > 0
      invariant 0 <= idx <= count && |quotient| == count && Defined(quotient)
      invariant forall j :: 0 <= j < idx ==> quotient[j] == V0
      invariant Natural(rest) && Natural(part) && |rest.bits| >= |num.bits|
      invariant idx > 0 ==> IntOf(part) == Pow2(idx - 1) * d
      invariant Remaining(IntOf(rest), d, n, Value(quotient, V0), idx)
    {
      TakeBit(IntOf(rest), d, n, Value(quotient, V0), idx);
      MulCommutes(d, Pow2(idx - 1));
      var fits := Compare(part, rest, true);
      if fits == V1 {
        rest := Minus(rest, part);
        SetBit(quotient, idx - 1);
        quotient := quotient[idx - 1 := V1];
      }
      if idx > 1 {
        HalveShifted(d, idx);
      }
      part := ShiftDown(part);
      idx := idx - 1;
    }
    ModUnique(n, d, Value(quotient, V0), IntOf(rest));
  }

  /** unsigned_divide. */
  method UnsignedDivide(left: Num4, right: Num4, signedResult: bool) returns (res: Num4)
    requires Natural(left) && Natural(right) && IntOf(right) > 0
    ensures |res.bits| > 0 && Defined(res.bits) && res.hasLen
    ensures IntOf(res) == IntOf(left) / IntOf(right)
    ensures res.hasSign ==> signedResult
    ensures signedResult && !res.hasSign ==> IntOf(res) == 0
  {
    ValueRange(left.bits);
    var nwid := SignificantBits(left);
    var dwid := SignificantBits(right);
    if dwid > nwid {
      SmallerDivisor(IntOf(left), IntOf(right), nwid, dwid);
      ZeroValue(Fill(V0, 1));
      assert Fill(V0, 1) == [V0];
      return Num4([V0], true, false);
    }
    FirstRemainder(IntOf(left), IntOf(right), nwid, dwid);
    var den := ShiftUp(right, nwid - dwid);
    var quotient, rest := LongDivision(left, right, nwid - dwid + 1, den);
    if signedResult {
      ValueExtend(quotient, V0, 1);
      assert quotient + [V0] == quotient + Fill(V0, 1);
      res := Num4(quotient + [V0], true, true);
    } else {
      res := Num4(quotient, true, false);
    }
  }

  /** unsigned_modulus. */
  method UnsignedModulus(left: Num4, right: Num4) returns (res: Num4)
    requires Natural(left) && Natural(right) && IntOf(right) > 0
    ensures Natural(res) && IntOf(res) == IntOf(left) % IntOf(right) && |res.bits| >= |left.bits|
  {
    ValueRange(left.bits);
    var nwid := SignificantBits(left);
    var dwid := SignificantBits(right);
    if dwid > nwid {
      SmallerDivisor(IntOf(left), IntOf(right), nwid, dwid);
      return left;
    }
    FirstRemainder(IntOf(left), IntOf(right), nwid, dwid);
    var den := ShiftUp(right, nwid - dwid);
    var quotient;
    quotient, res := LongDivision(left, right, nwid - dwid + 1, den);
  }

  // ----- operators / and % -----

  /** The native remainder, with the sign of the dividend. */
  function Remainder(a: int, b: int): int
    requires b != 0
  {
    var r := Magnitude(a) % Magnitude(b);
    if a < 0 then -r else r
  }

  lemma RemainderCompletes(a: int, b: int)
    requires b != 0
    ensures Remainder(a, b) == a - Quotient(a, b) * b
  {
    var m, d := Magnitude(a), Magnitude(b);
    var q := m / d;
    assert m == d * q + m % d;
    MulCommutes(d, q);
    MulSigns(q, b);
  }

  /** set(idx, v & 1); v >>= 1. */
  method NativeBits(v: int, len: nat) returns (bits: Vec)
    ensures bits == Encode(v, len)
  {
    bits := Fill(VZ, len);
    var n := v;
    for idx := 0 to len
      invariant |bits| == len && n == Shr(v, idx)
      invariant forall j :: 0 <= j < idx ==> bits[j] == Encode(v, len)[j]
    {
      EncodeAt(v, len, idx);
      ShrStep(v, idx);
      bits := bits[idx := FromBool(n % 2 == 1)];
      n := n / 2;
    }
  }

  lemma NativeLong(v: Num4)
    requires Defined(v.bits) && 0 < |v.bits| <= LONG_BITS + 1 && v.hasSign
    ensures AsLong(v) == IntOf(v)
  {
    if |v.bits| <= LONG_BITS {
      assert v.bits[..|v.bits|] == v.bits;
    } else {
      var top := v.bits[LONG_BITS];
      ValueExtend(v.bits[..LONG_BITS], top, 1);
      assert v.bits == v.bits[..LONG_BITS] + Fill(top, 1);
    }
  }

  lemma Pow2Eight()
    ensures Pow2(8) == 256
  {
    assert Pow2(4) == 16;
  }

  lemma WordSize()
    ensures Pow2(64) == 0x1_0000_0000_0000_0000
  {
    Pow2Eight();
    hide Pow2;
    Pow2Add(8, 8);
    Pow2Add(16, 16);
    Pow2Add(32, 32);
  }

  lemma NativeUlong(v: Num4)
    requires Defined(v.bits) && |v.bits| <= 64 && !v.hasSign
    ensures AsUlong(v) == IntOf(v)
  {
    ValueRange(v.bits);
    Pow2Monotone(|v.bits|, 64);
    WordSize();
  }

  /** The magnitude of a signed number, as -v or v without its sign. */
  method Unsign(v: Num4) returns (u: Num4)
    requires |v.bits| > 0 && Defined(v.bits) && v.hasLen && v.hasSign
    ensures Natural(u) && IntOf(u) == Magnitude(IntOf(v)) && |u.bits| == |v.bits|
    ensures v.bits[|v.bits| - 1] == V1 <==> IntOf(v) < 0
  {
    SignedRange(v.bits);
    ValuePadded(v.bits, SignBit(v));
    ValueRange(v.bits);
    assert Pow2(|v.bits|) == 2 * Pow2(|v.bits| - 1);
    if v.bits[|v.bits| - 1] == V1 {
      var m := Negate(v);
      ExactWhenInRange(-IntOf(v), |v.bits|, false);
      u := Num4(m.bits, false, false);
    } else {
      u := Num4(v.bits, false, false);
    }
  }

  /** The sign on a quotient, and its width. */
  method SignQuotient(q: Num4, negative: bool, w: nat) returns (bits: Vec)
    requires |q.bits| > 0 && Defined(q.bits) && q.hasLen && IntOf(q) >= 0 && (!q.hasSign ==> IntOf(q) == 0)
    ensures bits == Encode(if negative then -IntOf(q) else IntOf(q), w)
  {
    var res := q;
    if negative {
      res := Negate(q);
      IntRange(q);
      ExactWhenInRange(-IntOf(q), |q.bits|, q.hasSign);
    }
    CastKeepsValue(res, w);
    bits := CastToWidth(res, w).bits;
  }

  /** The sign on a remainder, which is not shorter than the result. */
  method SignRemainder(r: Num4, negative: bool, w: nat) returns (bits: Vec)
    requires Natural(r) && |r.bits| >= w
    ensures bits == Encode(if negative then -IntOf(r) else IntOf(r), w)
  {
    var res := r;
    if negative {
      res := Negate(r);
      EncodePrefix(-IntOf(r), |res.bits|, w);
    } else {
      CastKeepsValue(r, w);
    }
    bits := CastToWidth(res, w).bits;
  }

  method DivideMagnitudes(mod: bool, l: Num4, r: Num4, leftNegative: bool, rightNegative: bool, w: nat)
      returns (bits: Vec)
    requires Natural(l) && Natural(r) && IntOf(r) > 0 && |l.bits| == w
    ensures bits == Encode(if mod then (if leftNegative then -(IntOf(l) % IntOf(r)) else IntOf(l) % IntOf(r))
                           else if leftNegative != rightNegative then -(IntOf(l) / IntOf(r))
                               else IntOf(l) / IntOf(r), w)
  {
    hide Encode, Value;
    ValueRange(l.bits);
    if mod {
      var res := UnsignedModulus(l, r);
      bits := SignRemainder(res, leftNegative, w);
    } else {
      var res := UnsignedDivide(l, r, true);
      bits := SignQuotient(res, leftNegative != rightNegative, w);
    }
  }

  /** The wide signed branch: divide magnitudes, then give the result its sign and width. */
  method DivideWide(mod: bool, left: Num4, right: Num4) returns (bits: Vec)
    requires |left.bits| > 0 && Defined(left.bits) && left.hasLen && left.hasSign
    requires |right.bits| > 0 && Defined(right.bits) && right.hasLen && right.hasSign && IntOf(right) != 0
    ensures bits == Encode(if mod then Remainder(IntOf(left), IntOf(right))
                           else Quotient(IntOf(left), IntOf(right)), |left.bits|)
  {
    var l := Unsign(left);
    var r := Unsign(right);
    var leftNegative := left.bits[|left.bits| - 1] == V1;
    var rightNegative := right.bits[|right.bits| - 1] == V1;
    bits := DivideMagnitudes(mod, l, r, leftNegative, rightNegative, |left.bits|);
  }

  /** Division and remainder of numbers without sign. */
  function Whole(mod: bool, a: int, b: int): int
    requires b > 0
  {
    if mod then a % b else a / b
  }

  method DivideNatural(mod: bool, l: Num4, r: Num4, w: nat) returns (bits: Vec)
    requires Natural(l) && Natural(r) && IntOf(r) > 0
    ensures bits == Encode(Whole(mod, IntOf(l), IntOf(r)), w)
  {
    hide Encode, Value;
    var res;
    if mod {
      res := UnsignedModulus(l, r);
    } else {
      res := UnsignedDivide(l, r, false);
    }
    CastKeepsValue(res, w);
    bits := CastToWidth(res, w).bits;
  }

  /** The branch without sign. */
  method DivideUnsigned(mod: bool, left: Num4, right: Num4) returns (bits: Vec)
    requires |left.bits| == |right.bits| > 0 && Defined(left.bits) && !left.hasSign
    requires Defined(right.bits) && !right.hasSign && IntOf(right) > 0
    ensures bits == Encode(Whole(mod, IntOf(left), IntOf(right)), |left.bits|)
  {
    hide Encode, Value, Whole;
    if |left.bits| <= 64 {
      NativeUlong(left);
      NativeUlong(right);
      var l, r := AsUlong(left), AsUlong(right);
      bits := NativeBits(Whole(mod, l, r), |left.bits|);
    } else {
      bits := DivideNatural(mod, Num4(left.bits, false, false), Num4(right.bits, false, false), |left.bits|);
    }
  }

  lemma {:induction false} NonzeroValue(v: Vec, pad: Bit, k: nat)
    requires k < |v| && v[k] == V1
    ensures Value(v, pad) != 0
  {
    if k > 0 {
      NonzeroValue(v[1..], pad, k - 1);
    }
  }

  lemma ZeroExactly(v: Num4)
    requires |v.bits| > 0
    ensures Defined(v.bits) ==> (IsZero(v) <==> IntOf(v) == 0)
  {
    if Defined(v.bits) {
      if IsZero(v) {
        assert v.bits == Fill(V0, |v.bits|);
        ZeroValue(v.bits);
      } else {
        var k :| 0 <= k < |v.bits| && v.bits[k] != V0;
        NonzeroValue(v.bits, SignBit(v), k);
      }
    }
  }

  /** The branches of NetEBDiv::eval_arguments_: native arithmetic where the operands fit a long. */
  method DivideCases(mod: bool, left: Num4, right: Num4) returns (bits: Vec)
    requires |left.bits| == |right.bits| > 0 && left.hasLen && right.hasLen && left.hasSign == right.hasSign
    ensures bits == DivVec(mod, left.bits, right.bits, left.hasSign, |left.bits|)
  {
    hide Encode, Value;
    var useLen := |left.bits|;
    ZeroExactly(right);
    if !Defined(left.bits) || !Defined(right.bits) || IsZero(right) {
      return Fill(VX, useLen);
    }
    RemainderCompletes(IntOf(left), IntOf(right));
    if left.hasSign {
      if useLen <= (if mod then LONG_BITS + 1 else LONG_BITS) {
        NativeLong(left);
        NativeLong(right);
        var l, r := AsLong(left), AsLong(right);
        bits := NativeBits(if mod then Remainder(l, r) else Quotient(l, r), useLen);
      } else {
        bits := DivideWide(mod, left, right);
      }
    } else {
      ValueRange(left.bits);
      ValueRange(right.bits);
      bits := DivideUnsigned(mod, left, right);
    }
  }

  /** Defined operands, a divisor that is not zero, and no overflow: the quotient of the most negative
      number by -1 is out of range. */
  predicate Divides(mod: bool, left: Num4, right: Num4)
    requires |left.bits| > 0
  {
    && Defined(left.bits) && Defined(right.bits) && IntOf(right) != 0
    && (mod || !left.hasSign || IntOf(right) != -1 || IntOf(left) != 0 - Pow2(|left.bits| - 1))
  }

  /** Operators / and % on the sized operands of one width and sign that NetEBDiv has: x for an
      undefined operand or a zero divisor, otherwise the quotient truncated towards zero or the
      remainder with the dividend's sign, whatever the width. */
  method Divide(mod: bool, left: Num4, right: Num4) returns (bits: Vec)
    requires |left.bits| == |right.bits| > 0 && left.hasLen && right.hasLen && left.hasSign == right.hasSign
    ensures bits == DivVec(mod, left.bits, right.bits, left.hasSign, |left.bits|)
    ensures Divides(mod, left, right) ==>
              var a, b, n := IntOf(left), IntOf(right), Num(bits, left.hasSign);
              var m := if mod then n else a - n * b;
              && (0 - b < m < b || b < m < 0 - b) && (m == 0 || (m < 0) == (a < 0))
              && (a - m) % b == 0
  {
    bits := DivideCases(mod, left, right);
    if Divides(mod, left, right) {
      OperatorMeaning.DividedVectors(mod, left.bits, right.bits, left.hasSign);
    }
  }

  // ----- $clog2 -----

  /** Halving down to zero takes as many steps as there are bits. */
  method CountHalvings(v: Num4, ghost n: nat) returns (steps: nat)
    requires |v.bits| > 0 && Defined(v.bits) && !v.hasSign && n == IntOf(v)
    ensures steps == HalvingSteps(n)
  {
    var arg := v;
    steps := 0;
    ZeroExactly(arg);
    while !IsZero(arg)
      invariant |arg.bits| > 0 && Defined(arg.bits) && !arg.hasSign
      invariant IntOf(arg) >= 0 && (IsZero(arg) <==> IntOf(arg) == 0)
      invariant steps + HalvingSteps(IntOf(arg)) == HalvingSteps(n)
      decreases IntOf(arg)
    {
      steps := steps + 1;
      arg := ShiftDown(arg);
      ZeroExactly(arg);
    }
  }

  /** The least power of two that reaches n. */
  predicate IsCeilLog2(r: nat, n: int) {
    n <= Pow2(r) && (r > 0 ==> Pow2(r - 1) < n)
  }

  lemma CeilLog2Steps(n: int)
    requires n > 0
    ensures IsCeilLog2(HalvingSteps(n - 1), n)
  {
    HalvingBound(n - 1);
    HalvingLow(n - 1);
  }

  lemma LessOne(v: Num4, less: Num4)
    requires |v.bits| > 0 && Defined(v.bits) && !v.hasSign && IntOf(v) > 0
    requires ArithResult(less, IntOf(v) - 1, v, Num4([V1], true, false))
    ensures |less.bits| > 0 && Defined(less.bits) && !less.hasSign && IntOf(less) == IntOf(v) - 1
  {
    ValueRange(v.bits);
    assert Defined([V1]);
    Pow2Monotone(|v.bits|, |less.bits|);
    ExactWhenInRange(IntOf(v) - 1, |less.bits|, false);
  }

  /** The loop of evaluate_clog2_ on an argument read without its sign. */
  method UnsignedLog2(arg: Num4) returns (res: nat)
    requires |arg.bits| > 0 && Defined(arg.bits) && !arg.hasSign
    ensures IsCeilLog2(res, IntOf(arg))
  {
    res := 0;
    ValueRange(arg.bits);
    ZeroExactly(arg);
    if !IsZero(arg) {
      var one := Num4([V1], true, false);
      assert [V1][1..] == [];
      var less := Minus(arg, one);
      LessOne(arg, less);
      res := CountHalvings(less, IntOf(arg) - 1);
      CeilLog2Steps(IntOf(arg));
    }
  }

  /** The least width that holds n as a signed number. */
  predicate LeastSigned(n: int, len: nat) {
    Fits(n, len, true) && (len > 1 ==> !Fits(n, len - 1, true))
  }

  /** The number that $clog2 takes the logarithm of: a negative one is read without its sign,
      after trimming when it has no length. */
  ghost predicate Clog2Argument(arg: Num4, u: int)
    requires |arg.bits| > 0
  {
    if !Negative(arg) then u == IntOf(arg)
    else exists len: nat ::
           (if arg.hasLen then len == |arg.bits| else LeastSigned(IntOf(arg), len)) && u == IntOf(arg) + Pow2(len)
  }

  lemma TrimmedIsLeast(v: Num4)
    requires |v.bits| > 0 && Defined(v.bits) && Negative(v) && Trimmed(v)
    ensures LeastSigned(IntOf(v), |v.bits|)
  {
    var n := |v.bits|;
    SignedRange(v.bits);
    if n > 1 {
      var low := v.bits[..n - 1];
      ValueExtend(low, V1, 1);
      assert v.bits == low + Fill(V1, 1);
      ValuePadded(low, V1);
      ValueExtend(low[..n - 2], V0, 1);
      assert low == low[..n - 2] + Fill(V0, 1);
      ValueRange(low[..n - 2]);
      assert Pow2(n - 1) == 2 * Pow2(n - 2);
    }
  }

  lemma NegativeTop(v: Num4)
    requires |v.bits| > 0 && Defined(v.bits)
    ensures v.hasSign && v.bits[|v.bits| - 1] == V1 <==> v.hasSign && IntOf(v) < 0
  {
    ValuePadded(v.bits, SignBit(v));
    ValueRange(v.bits);
  }

  lemma TrimmedArgument(arg: Num4, use: Num4)
    requires |arg.bits| > 0 && Defined(arg.bits) && use.hasSign == arg.hasSign && IntOf(use) == IntOf(arg)
    requires 0 < |use.bits| <= |arg.bits| && Defined(use.bits)
    requires if Negative(arg) && !arg.hasLen then Trimmed(use) else use == arg
    ensures Clog2Argument(arg, Value(use.bits, V0))
  {
    NegativeTop(arg);
    NegativeTop(use);
    if Negative(arg) {
      if !arg.hasLen {
        TrimmedIsLeast(use);
      }
      ValuePadded(use.bits, V1);
      assert SignBit(use) == V1;
    } else if arg.hasSign {
      ValuePadded(arg.bits, SignBit(arg));
    }
  }

  /** evaluate_clog2_ of an integer; a negative one counts at least integer_width. */
  method CeilLog2(arg: Num4, integerWidth: nat) returns (bits: Vec)
    requires |arg.bits| > 0
    ensures !Defined(arg.bits) ==> bits == Fill(VX, integerWidth)
    ensures Defined(arg.bits) ==>
              exists u: int, log: nat :: Clog2Argument(arg, u) && IsCeilLog2(log, u)
                && bits == Encode(if Negative(arg) then Max(log, integerWidth) else log, integerWidth)
  {
    if !Defined(arg.bits) {
      return Fill(VX, integerWidth);
    }
    var use := arg;
    if Negative(arg) && !arg.hasLen {
      use := Trim(arg);
    }
    TrimmedArgument(arg, use);
    use := Num4(use.bits, use.hasLen, false);
    var res := UnsignedLog2(use);
    ghost var log := res;
    assert Clog2Argument(arg, IntOf(use)) && IsCeilLog2(log, IntOf(use));
    if Negative(arg) && res < integerWidth {
      res := integerWidth;
    }
    bits := Encode(res, integerWidth);
  }
}
