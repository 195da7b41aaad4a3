/** The number class (qflow-org/iverilog/verinum.cc): vectors with a length flag and a sign
    flag, and its bit-at-a-time arithmetic and comparison loops. Strings and the
    single-bit-literal flag are left out. */
module Verinum {
  import opened FourState
  import opened TwosComplement

  datatype Num4 = Num4(bits: Vec, hasLen: bool, hasSign: bool)

  function SignBit(v: Num4): Bit {
    SignPad(v.bits, v.hasSign)
  }

  function IntOf(v: Num4): int {
    Num(v.bits, v.hasSign)
  }

  predicate IsZero(v: Num4) {
    forall i :: 0 <= i < |v.bits| ==> v.bits[i] == V0
  }

  predicate Negative(v: Num4)
    requires |v.bits| > 0
  {
    v.hasSign && v.bits[|v.bits| - 1] == V1
  }

  function Max(a: nat, b: nat): nat {
    if a > b then a else b
  }

  function Min(a: nat, b: nat): nat {
    if a < b then a else b
  }

  function NotVec(v: Vec): (r: Vec)
    ensures |r| == |v| && forall i :: 0 <= i < |v| ==> r[i] == Not(v[i])
  {
    seq(|v|, i requires 0 <= i < |v| => Not(v[i]))
  }

  /** One step of the adder: the sum bit and the carry out. */
  function AddWithCarry(l: Bit, r: Bit, c: Bit): (Bit, Bit) {
    if !Known(c) || !Known(l) || !Known(r) then (VX, VX)
    else
      var sum := BitVal(c) + BitVal(l) + BitVal(r);
      (FromBool(sum % 2 == 1), FromBool(sum >= 2))
  }

  // ----- the adder loop -----

  function Tail(v: Vec, i: nat, pad: Bit): int {
    Value(v[Min(i, |v|)..], pad)
  }

  lemma TailStep(v: Vec, i: nat, pad: Bit)
    ensures Tail(v, i, pad) == BitVal(At(v, i, pad)) + 2 * Tail(v, i + 1, pad)
  {
    if i < |v| {
      assert v[i..][1..] == v[i + 1..];
    } else {
      assert v[Min(i, |v|)..] == [] == v[Min(i + 1, |v|)..];
    }
  }

  lemma RippleStep(total: int, l: Vec, lp: Bit, r: Vec, rp: Bit, carry: Bit, n: nat, idx: nat)
    requires Defined(l) && Defined(r) && Known(lp) && Known(rp) && Known(carry) && idx < n
    requires Shr(total, idx) == Tail(l, idx, lp) + Tail(r, idx, rp) + BitVal(carry)
    ensures var (bit, next) := AddWithCarry(At(l, idx, lp), At(r, idx, rp), carry);
            && bit == Encode(total, n)[idx] && Known(next)
            && Shr(total, idx + 1) == Tail(l, idx + 1, lp) + Tail(r, idx + 1, rp) + BitVal(next)
  {
    TailStep(l, idx, lp);
    TailStep(r, idx, rp);
    EncodeAt(total, n, idx);
    ShrStep(total, idx);
  }

  /** The carry loop of +, - and unary -. Bits above a vector's top are read as its pad,
      as the second loop of each operator does. */
  method RippleSum(l: Vec, lp: Bit, r: Vec, rp: Bit, carryIn: Bit, n: nat) returns (sum: Vec)
    requires Defined(l) && Defined(r) && Known(lp) && Known(rp) && Known(carryIn)
    ensures sum == Encode(Value(l, lp) + Value(r, rp) + BitVal(carryIn), n)
  {
    sum := [];
    var carry := carryIn;
    ghost var total := Value(l, lp) + Value(r, rp) + BitVal(carryIn);
    assert l[0..] == l && r[0..] == r;
    for idx := 0 to n
      invariant |sum| == idx && Known(carry)
      invariant Shr(total, idx) == Tail(l, idx, lp) + Tail(r, idx, rp) + BitVal(carry)
      invariant forall j :: 0 <= j < idx ==> sum[j] == Encode(total, n)[j]
    {
      var (bit, next) := AddWithCarry(At(l, idx, lp), At(r, idx, rp), carry);
      RippleStep(total, l, lp, r, rp, carry, n, idx);
      sum := sum + [bit];
      carry := next;
    }
    assert sum == Encode(total, n);
  }

  lemma {:induction false} ValueOfNot(v: Vec, pad: Bit)
    requires Defined(v) && Known(pad)
    ensures Defined(NotVec(v)) && Value(NotVec(v), Not(pad)) == -1 - Value(v, pad)
  {
    if |v| > 0 {
      ValueOfNot(v[1..], pad);
      assert NotVec(v)[1..] == NotVec(v[1..]);
    }
  }

  lemma SignBitKnown(v: Num4)
    requires Defined(v.bits)
    ensures Known(SignBit(v))
  {
  }

  /** What a sized or unsized result of a + or - looks like: x when an operand is undefined,
      otherwise the low bits of the integer result. */
  predicate ArithResult(res: Num4, exact: int, l: Num4, r: Num4) {
    var sized := l.hasLen && r.hasLen;
    var n := Max(|l.bits|, |r.bits|);
    && res.hasLen == sized
    && res.hasSign == (l.hasSign && r.hasSign)
    && if !Defined(l.bits) || !Defined(r.bits) then res.bits == Fill(VX, if sized then n else 1)
       else
         && res.bits == Encode(exact, |res.bits|)
         && (if sized then |res.bits| == n else n <= |res.bits| <= n + 1)
  }

  /** Unsized results keep the extra top bit only when it says something. */
  function Settle(sum: Vec, signed: bool): (r: Vec)
    requires |sum| > 1
    ensures |sum| - 1 <= |r| <= |sum|
  {
    var m := |sum| - 1;
    if sum[m] != (if signed then sum[m - 1] else V0) then sum else sum[..m]
  }

  predicate Fits(n: int, w: nat, signed: bool) {
    w > 0 && if signed then 0 - Pow2(w - 1) <= n < Pow2(w - 1) else 0 <= n < Pow2(w)
  }

  /** An integer that fits n bits is read back unchanged from its n-bit code. */
  lemma ExactWhenInRange(n: int, w: nat, signed: bool)
    requires Fits(n, w, signed)
    ensures Num(Encode(n, w), signed) == n
  {
    var v := Encode(n, w);
    ValueOfEncode(n, w);
    if signed {
      SignedRange(v);
      ValuePadded(v, v[w - 1]);
      assert Pow2(w) == 2 * Pow2(w - 1);
      if n >= 0 {
        ModUnique(n, Pow2(w), 0, n);
      } else {
        ModUnique(n, Pow2(w), -1, n + Pow2(w));
      }
    } else {
      ModUnique(n, Pow2(w), 0, n);
    }
  }

  /** Dropping a top bit that only repeats the pad keeps the value. */
  lemma DropTop(v: Vec, signed: bool)
    requires |v| > 1
    ensures v[|v| - 1] == (if signed then v[|v| - 2] else V0) ==> Num(v[..|v| - 1], signed) == Num(v, signed)
  {
    var m := |v| - 1;
    var pad := if signed then v[m - 1] else V0;
    if v[m] == pad {
      ValueExtend(v[..m], pad, 1);
      assert v == v[..m] + Fill(pad, 1);
    }
  }

  lemma SettleEncode(exact: int, n: nat, signed: bool)
    requires n > 0
    ensures var r := Settle(Encode(exact, n + 1), signed);
            && r == Encode(exact, |r|)
            && (Fits(exact, n + 1, signed) ==> Num(r, signed) == exact)
  {
    EncodePrefix(exact, n + 1, n);
    DropTop(Encode(exact, n + 1), signed);
    if Fits(exact, n + 1, signed) {
      ExactWhenInRange(exact, n + 1, signed);
    }
  }

  lemma IntRange(v: Num4)
    requires |v.bits| > 0
    ensures v.hasSign ==> 0 - Pow2(|v.bits| - 1) <= IntOf(v) < Pow2(|v.bits| - 1)
    ensures !v.hasSign ==> 0 <= IntOf(v) < Pow2(|v.bits|)
  {
    if v.hasSign {
      SignedRange(v.bits);
    } else {
      ValueRange(v.bits);
    }
  }

  lemma SumRange(l: Num4, r: Num4)
    requires |l.bits| > 0 && |r.bits| > 0 && l.hasSign == r.hasSign
    ensures var n := Max(|l.bits|, |r.bits|);
            if l.hasSign then
              && 0 - Pow2(n) <= IntOf(l) + IntOf(r) < Pow2(n)
              && 0 - Pow2(n) <= IntOf(l) - IntOf(r) < Pow2(n)
            else
              && 0 <= IntOf(l) + IntOf(r) < Pow2(n + 1)
              && 0 - Pow2(n) < IntOf(l) - IntOf(r) < Pow2(n)
  {
    var n := Max(|l.bits|, |r.bits|);
    IntRange(l);
    IntRange(r);
    Pow2Monotone(|l.bits|, n);
    Pow2Monotone(|r.bits|, n);
    if l.hasSign {
      Pow2Monotone(|l.bits| - 1, n - 1);
      Pow2Monotone(|r.bits| - 1, n - 1);
      assert Pow2(n) == 2 * Pow2(n - 1);
    }
  }

  /** operator + */
  method Plus(left: Num4, right: Num4) returns (res: Num4)
    requires |left.bits| > 0 && |right.bits| > 0
    ensures ArithResult(res, IntOf(left) + IntOf(right), left, right)
    ensures Defined(left.bits) && Defined(right.bits) && !res.hasLen && left.hasSign == right.hasSign
            ==> IntOf(res) == IntOf(left) + IntOf(right)
  {
    var hasLen := left.hasLen && right.hasLen;
    var signed := left.hasSign && right.hasSign;
    var maxLen := Max(|left.bits|, |right.bits|);
    if !Defined(left.bits) || !Defined(right.bits) {
      return Num4(Fill(VX, if hasLen then maxLen else 1), hasLen, signed);
    }
    var lpad, rpad := SignBit(left), SignBit(right);
    ghost var exact := IntOf(left) + IntOf(right);
    if hasLen {
      var sum := RippleSum(left.bits, lpad, right.bits, rpad, V0, maxLen);
      return Num4(sum, hasLen, signed);
    }
    var sum := RippleSum(left.bits, lpad, right.bits, rpad, V0, maxLen + 1);
    assert sum == Encode(exact, maxLen + 1);
    SettleEncode(exact, maxLen, signed);
    res := Num4(Settle(sum, signed), hasLen, signed);
    if left.hasSign == right.hasSign {
      SumRange(left, right);
    }
  }

  /** operator - (binary): only a signed unsized result may grow. */
  method Minus(left: Num4, right: Num4) returns (res: Num4)
    requires |left.bits| > 0 && |right.bits| > 0
    ensures ArithResult(res, IntOf(left) - IntOf(right), left, right)
    ensures Defined(left.bits) && Defined(right.bits) && !res.hasLen && left.hasSign == right.hasSign
            ==> (IntOf(res) == IntOf(left) - IntOf(right) <==> left.hasSign || IntOf(left) >= IntOf(right))
  {
    var hasLen := left.hasLen && right.hasLen;
    var signed := left.hasSign && right.hasSign;
    var maxLen := Max(|left.bits|, |right.bits|);
    if !Defined(left.bits) || !Defined(right.bits) {
      return Num4(Fill(VX, if hasLen then maxLen else 1), hasLen, signed);
    }
    var lpad, rpad := SignBit(left), SignBit(right);
    ghost var exact := IntOf(left) - IntOf(right);
    ValueOfNot(right.bits, rpad);
    if hasLen || !signed {
      var sum := RippleSum(left.bits, lpad, NotVec(right.bits), Not(rpad), V1, maxLen);
      res := Num4(sum, hasLen, signed);
      if !hasLen && left.hasSign == right.hasSign {
        SumRange(left, right);
        ValueRange(sum);
        if exact >= 0 {
          ExactWhenInRange(exact, maxLen, false);
        }
      }
    } else {
      var sum := RippleSum(left.bits, lpad, NotVec(right.bits), Not(rpad), V1, maxLen + 1);
      assert sum == Encode(exact, maxLen + 1);
      SettleEncode(exact, maxLen, true);
      SumRange(left, right);
      res := Num4(Settle(sum, true), hasLen, signed);
    }
  }

  /** operator - (unary) */
  method Negate(right: Num4) returns (res: Num4)
    requires |right.bits| > 0
    ensures res.hasLen == right.hasLen && res.hasSign == right.hasSign
    ensures !Defined(right.bits) ==> res.bits == Fill(VX, if right.hasLen then |right.bits| else 1)
    ensures Defined(right.bits) ==> |right.bits| <= |res.bits| && res.bits == Encode(-IntOf(right), |res.bits|)
    ensures right.hasLen ==> |res.bits| == |right.bits|
    ensures Defined(right.bits) && !right.hasLen && right.hasSign ==> IntOf(res) == -IntOf(right)
  {
    if !Defined(right.bits) {
      return Num4(Fill(VX, if right.hasLen then |right.bits| else 1), right.hasLen, right.hasSign);
    }
    var len := |right.bits|;
    var pad := SignBit(right);
    ValueOfNot(right.bits, pad);
    var grows := right.hasSign && !right.hasLen;
    var n := if grows then len + 1 else len;
    var sum := RippleSum([], V0, NotVec(right.bits), Not(pad), V1, n);
    assert sum == Encode(-IntOf(right), n);
    if grows {
      SignedRange(right.bits);
      SettleEncode(-IntOf(right), len, true);
      sum := Settle(sum, true);
    }
    res := Num4(sum, right.hasLen, right.hasSign);
  }

  // ----- trimming and resizing -----

  /** As short as trimming makes it: at most one copy of the sign, at most one leading zero. */
  predicate Trimmed(v: Num4) {
    var n := |v.bits|;
    n < 2 || if v.hasSign then v.bits[n - 1] != v.bits[n - 2] else v.bits[n - 1] == V0 ==> v.bits[n - 2] != V0
  }

  /** trim_vnum: the bits cut off repeat the pad that stays on top, and no more could go. */
  method Trim(that: Num4) returns (res: Num4)
    ensures that.hasLen ==> res == that
    ensures res.hasLen == that.hasLen && res.hasSign == that.hasSign
    ensures |res.bits| <= |that.bits| && res.bits == that.bits[..|res.bits|] && (|that.bits| > 0 ==> |res.bits| > 0)
    ensures |res.bits| < |that.bits| ==>
              && that.bits == res.bits + Fill(res.bits[|res.bits| - 1], |that.bits| - |res.bits|)
              && (!that.hasSign ==> res.bits[|res.bits| - 1] == V0)
    ensures !that.hasLen ==> Trimmed(res)
    ensures IntOf(res) == IntOf(that)
  {
    if that.hasLen || |that.bits| < 2 {
      return that;
    }
    var n := |that.bits|;
    var top := n - 1;
    var tlen;
    if that.hasSign {
      var sign := that.bits[top];
      while top > 0 && that.bits[top] == sign
        invariant 0 <= top < n
        invariant forall j :: top < j < n ==> that.bits[j] == sign
      {
        top := top - 1;
      }
      if that.bits[top] != sign {
        top := top + 1;
      }
      tlen := top + 1;
    } else {
      while top > 0 && that.bits[top] == V0
        invariant 0 <= top < n
        invariant forall j :: top < j < n ==> that.bits[j] == V0
      {
        top := top - 1;
      }
      if top + 1 == n {
        return that;
      }
      tlen := top + 2;
      if that.bits[top] == V0 {
        tlen := tlen - 1;
      }
    }
    res := Num4(that.bits[..tlen], false, that.hasSign);
    ghost var pad := SignBit(that);
    ValueExtend(res.bits, pad, n - tlen);
    assert that.bits == res.bits + Fill(pad, n - tlen);
  }

  /** cast_to_width: truncate, or extend with the sign, with 0, or (unsized only) with x or z. */
  function CastToWidth(that: Num4, width: nat): (r: Num4)
    ensures |r.bits| == width && r.hasSign == that.hasSign && r.hasLen
  {
    var n := |that.bits|;
    if n >= width then Num4(that.bits[..width], true, that.hasSign)
    else if n == 0 then Num4(Fill(V0, width), true, that.hasSign)
    else
      var top := that.bits[n - 1];
      var pad := if that.hasSign then top
                 else if top == V1 || that.hasLen then V0
                 else top;
      Num4(that.bits + Fill(pad, width - n), true, that.hasSign)
  }

  /** Widening a defined value keeps its integer; narrowing keeps the low bits. */
  lemma CastKeepsValue(v: Num4, width: nat)
    requires Defined(v.bits)
    ensures |v.bits| <= width && |v.bits| > 0 ==> IntOf(CastToWidth(v, width)) == IntOf(v)
    ensures |v.bits| > 0 ==> CastToWidth(v, width).bits == Encode(IntOf(v), width)
  {
    var n := |v.bits|;
    var c := CastToWidth(v, width);
    var pad := SignBit(v);
    if n > 0 {
      EncodeOfValue(v.bits, pad);
      if n < width {
        ValueExtend(v.bits, pad, width - n);
        assert c.bits == v.bits + Fill(pad, width - n);
        EncodeOfValue(c.bits, pad);
      } else {
        EncodePrefix(IntOf(v), n, width);
      }
    }
  }

  // ----- multiplication -----

  /** The low k bits of a vector continued with its pad. */
  function Low(v: Vec, pad: Bit, k: nat): Vec {
    seq(k, i requires 0 <= i => At(v, i, pad))
  }

  lemma LowStep(v: Vec, pad: Bit, k: nat)
    ensures Value(Low(v, pad, k + 1), V0) == Value(Low(v, pad, k), V0) + Pow2(k) * BitVal(At(v, k, pad))
  {
    var w := Low(v, pad, k + 1);
    ValueSplit(w, k, V0);
    assert w[..k] == Low(v, pad, k);
    var top := w[k..];
    assert top == [At(v, k, pad)];
    assert Value(top, V0) == BitVal(top[0]) + 2 * Value(top[1..], V0);
  }

  lemma {:induction false} LowCongruent(v: Vec, pad: Bit, k: nat)
    requires Defined(v) && Known(pad)
    ensures Encode(Value(Low(v, pad, k), V0), k) == Encode(Value(v, pad), k)
    decreases k
  {
    var w := Low(v, pad, k);
    EncodeOfValue(w, V0);
    var full := if k <= |v| then v else v + Fill(pad, k - |v|);
    if k > |v| {
      ValueExtend(v, pad, k - |v|);
    }
    EncodeOfValue(full, pad);
    EncodePrefix(Value(full, pad), |full|, k);
    assert w == full[..k];
  }

  /** Fold one partial product into the running product. */
  lemma PartialProduct(p: int, x: int, low: int, k: nat, len: nat, res: Vec)
    requires k <= len && p == x * low && res == Encode(p, len)
    ensures x * (low + Pow2(k)) == p + Pow2(k) * x
    ensures Encode(p + Pow2(k) * x, len) == res[..k] + Encode(x + Value(res[k..], V0) + 0, len - k)
  {
    MulDistrib(x, low, Pow2(k));
    MulCommutes(x, Pow2(k));
    EncodeAddShifted(p, x, k, len);
    EncodeSuffix(p, len, k);
    EncodeOfValue(res[k..], V0);
    EncodeSum(Shr(p, k), Value(res[k..], V0), x, len - k);
  }

  /** One partial product added to the high bits of the running product. */
  method AddShifted(left: Num4, bits: Vec, k: nat, ghost p: int, ghost low: int) returns (sum: Vec)
    requires Defined(left.bits) && k <= |bits| && p == IntOf(left) * low && bits == Encode(p, |bits|)
    ensures sum == Encode(IntOf(left) * (low + Pow2(k)), |bits|)
  {
    PartialProduct(p, IntOf(left), low, k, |bits|, bits);
    var high := RippleSum(left.bits, SignBit(left), bits[k..], V0, V0, |bits| - k);
    sum := bits[..k] + high;
  }

  /** The shift-and-add loop of operator *. */
  method ShiftAndAdd(left: Num4, right: Num4, len: nat) returns (bits: Vec)
    requires Defined(left.bits) && Defined(right.bits)
    ensures bits == Encode(IntOf(left) * IntOf(right), len)
  {
    var rSign := SignBit(right);
    bits := Encode(0, len);
    ghost var l := IntOf(left);
    ghost var low := 0;
    assert l * 0 == 0;
    for rdx := 0 to len
      invariant low == Value(Low(right.bits, rSign, rdx), V0)
      invariant |bits| == len && bits == Encode(l * low, len)
    {
      var rBit := At(right.bits, rdx, rSign);
      LowStep(right.bits, rSign, rdx);
      if rBit != V0 {
        bits := AddShifted(left, bits, rdx, l * low, low);
        low := low + Pow2(rdx);
      }
    }
    LowCongruent(right.bits, rSign, len);
    EncodeProduct(low, IntOf(right), l, len);
  }

  lemma MulMono2(a: int, p: int, b: int, q: int)
    requires 0 <= a <= p && 0 <= b <= q
    ensures 0 <= a * b <= p * q
  {
    MulMonotone(a, 0, b);
    MulMonotone(a, b, q);
    MulMonotone(q, a, p);
    MulCommutes(a, q);
    MulCommutes(p, q);
  }

  lemma ProductBound(a: int, b: int, p: int, q: int)
    requires 0 - p <= a <= p && 0 - q <= b <= q
    ensures 0 - p * q <= a * b <= p * q
  {
    if a >= 0 && b >= 0 {
      MulMono2(a, p, b, q);
    } else if a >= 0 {
      MulMono2(a, p, -b, q);
      assert a * -b == -(a * b);
    } else if b >= 0 {
      MulMono2(-a, p, b, q);
      assert -a * b == -(a * b);
    } else {
      MulMono2(-a, p, -b, q);
      assert -a * -b == a * b;
    }
  }

  lemma BelowProduct(p: int, q: int)
    requires p > 0 && q > 0
    ensures (p - 1) * (q - 1) < p * q
  {
    MulDistrib(p - 1, q, 1);
    MulDistrib(q, p, 1);
    MulCommutes(p - 1, q);
    MulCommutes(p, q);
  }

  lemma ProductRange(l: Num4, r: Num4)
    requires |l.bits| > 0 && |r.bits| > 0 && l.hasSign == r.hasSign
    ensures var n := |l.bits| + |r.bits|;
            if l.hasSign then 0 - Pow2(n - 1) <= IntOf(l) * IntOf(r) < Pow2(n - 1)
            else 0 <= IntOf(l) * IntOf(r) < Pow2(n)
  {
    IntRange(l);
    IntRange(r);
    if l.hasSign {
      var i, j := |l.bits| - 1, |r.bits| - 1;
      ProductBound(IntOf(l), IntOf(r), Pow2(i), Pow2(j));
      Pow2Add(i, j);
      assert Pow2(i + j + 1) == 2 * Pow2(i + j);
    } else {
      MulMono2(IntOf(l), Pow2(|l.bits|) - 1, IntOf(r), Pow2(|r.bits|) - 1);
      Pow2Add(|l.bits|, |r.bits|);
      BelowProduct(Pow2(|l.bits|), Pow2(|r.bits|));
    }
  }

  /** operator * */
  method Times(left: Num4, right: Num4) returns (res: Num4)
    requires |left.bits| > 0 && |right.bits| > 0
    ensures res.hasLen == (left.hasLen && right.hasLen) && res.hasSign == (left.hasSign && right.hasSign)
    ensures !Defined(left.bits) || !Defined(right.bits)
            ==> res.bits == Fill(VX, if res.hasLen then Max(|left.bits|, |right.bits|) else 1)
    ensures Defined(left.bits) && Defined(right.bits) && res.hasLen
            ==> res.bits == Encode(IntOf(left) * IntOf(right), Max(|left.bits|, |right.bits|))
    ensures Defined(left.bits) && Defined(right.bits) && !res.hasLen && left.hasSign == right.hasSign
            ==> IntOf(res) == IntOf(left) * IntOf(right)
  {
    var hasLen := left.hasLen && right.hasLen;
    var signed := left.hasSign && right.hasSign;
    var lLen, rLen := |left.bits|, |right.bits|;
    var len := if hasLen then Max(lLen, rLen) else lLen + rLen;
    if !Defined(left.bits) || !Defined(right.bits) {
      return Num4(Fill(VX, if hasLen then len else 1), hasLen, signed);
    }
    var bits := ShiftAndAdd(left, right, len);
    if left.hasSign == right.hasSign && !hasLen {
      ProductRange(left, right);
      ExactWhenInRange(IntOf(left) * IntOf(right), len, signed);
    }
    res := Trim(Num4(bits, hasLen, signed));
  }

  // ----- comparison -----

  /** Both operands read as integers: signed only if both are signed. */
  function CompareInts(l: Num4, r: Num4): (int, int) {
    var s := l.hasSign && r.hasSign;
    (Num(l.bits, s), Num(r.bits, s))
  }

  function Extended(v: Vec, pad: Bit, n: nat): (e: Vec)
    requires |v| <= n
    ensures |e| == n && forall i :: 0 <= i < n ==> e[i] == At(v, i, pad)
  {
    v + Fill(pad, n - |v|)
  }

  /** Position k is the highest at which two vectors, continued with one pad, differ. */
  ghost predicate DifferAt(l: Vec, r: Vec, pad: Bit, k: nat) {
    && At(l, k, pad) != At(r, k, pad)
    && forall j :: k < j ==> At(l, j, pad) == At(r, j, pad)
  }

  lemma TailsAgree(x: Vec, y: Vec, l: Vec, r: Vec, pad: Bit, k: nat)
    requires DifferAt(l, r, pad, k) && |x| == |y| > k
    requires forall i :: 0 <= i < |x| ==> x[i] == At(l, i, pad) && y[i] == At(r, i, pad)
    ensures x[k + 1..] == y[k + 1..]
  {
    forall i | k < i < |x|
      ensures x[i] == y[i]
    {
      assert At(l, i, pad) == At(r, i, pad);
    }
  }

  lemma FirstDecides(x: Vec, y: Vec, pad: Bit, k: nat)
    requires k < |x| && k < |y| && x[k] == V0 && y[k] == V1 && x[k + 1..] == y[k + 1..]
    ensures Value(x, pad) < Value(y, pad)
  {
    assert x[k..][1..] == x[k + 1..] && y[k..][1..] == y[k + 1..];
    OrderFromTail(x, pad, y, pad, k);
  }

  lemma DecideAt(l: Vec, r: Vec, pad: Bit, k: nat)
    requires DifferAt(l, r, pad, k) && At(l, k, pad) == V0 && At(r, k, pad) == V1
    ensures Value(l, pad) < Value(r, pad)
  {
    var n := Max(k + 1, Max(|l|, |r|));
    var x, y := Extended(l, pad, n), Extended(r, pad, n);
    ValueExtend(l, pad, n - |l|);
    ValueExtend(r, pad, n - |r|);
    TailsAgree(x, y, l, r, pad, k);
    FirstDecides(x, y, pad, k);
  }

  lemma SameEverywhere(l: Vec, r: Vec, pad: Bit)
    requires forall j :: 0 <= j ==> At(l, j, pad) == At(r, j, pad)
    ensures Value(l, pad) == Value(r, pad)
  {
    var n := Max(|l|, |r|);
    ValueExtend(l, pad, n - |l|);
    ValueExtend(r, pad, n - |r|);
    var x, y := Extended(l, pad, n), Extended(r, pad, n);
    assert forall i :: 0 <= i < n ==> x[i] == At(l, i, pad) && y[i] == At(r, i, pad);
    assert x == y;
  }

  lemma TopDecides(l: Vec, r: Vec)
    requires |l| > 0 && |r| > 0 && l[|l| - 1] == V1 && r[|r| - 1] == V0
    ensures Num(l, true) < 0 <= Num(r, true)
  {
    ValuePadded(l, V1);
    ValueRange(l);
    ValueRange(r);
  }

  /** The three scans shared by < and <=, once both pads are known to be equal. */
  method ScanOrder(left: Vec, right: Vec, pad: Bit, orEqual: bool) returns (res: Bit)
    requires Defined(left) && Defined(right) && Known(pad)
    ensures var (a, b) := (Value(left, pad), Value(right, pad)); res == FromBool(a < b || (orEqual && a == b))
  {
    var idx := |left|;
    while idx > |right|
      invariant idx <= |left| && (|right| <= idx || idx == |left|)
      invariant forall j :: idx <= j ==> At(left, j, pad) == pad
    {
      if left[idx - 1] != pad {
        if pad == V1 { DecideAt(left, right, pad, idx - 1); } else { DecideAt(right, left, pad, idx - 1); }
        return pad;
      }
      idx := idx - 1;
    }
    idx := |right|;
    while idx > |left|
      invariant idx <= |right| && (|left| <= idx || idx == |right|)
      invariant forall j :: idx <= j ==> At(right, j, pad) == pad
    {
      if right[idx - 1] != pad {
        if pad == V1 { DecideAt(right, left, pad, idx - 1); } else { DecideAt(left, right, pad, idx - 1); }
        return Not(pad);
      }
      idx := idx - 1;
    }
    idx := Min(|left|, |right|);
    while idx > 0
      invariant 0 <= idx <= Min(|left|, |right|)
      invariant forall j :: idx <= j ==> At(left, j, pad) == At(right, j, pad)
    {
      if left[idx - 1] == V1 && right[idx - 1] == V0 {
        DecideAt(right, left, pad, idx - 1);
        return V0;
      }
      if left[idx - 1] == V0 && right[idx - 1] == V1 {
        DecideAt(left, right, pad, idx - 1);
        return V1;
      }
      idx := idx - 1;
    }
    SameEverywhere(left, right, pad);
    return FromBool(orEqual);
  }

  /** operators < and <= */
  method Compare(left: Num4, right: Num4, orEqual: bool) returns (res: Bit)
    requires left.hasSign && right.hasSign ==> |left.bits| > 0 && |right.bits| > 0
    requires Defined(left.bits) && Defined(right.bits)
    ensures var (a, b) := CompareInts(left, right); res == FromBool(a < b || (orEqual && a == b))
  {
    var leftPad, rightPad := V0, V0;
    if left.hasSign && right.hasSign {
      leftPad := left.bits[|left.bits| - 1];
      rightPad := right.bits[|right.bits| - 1];
      if leftPad == V1 && rightPad == V0 {
        TopDecides(left.bits, right.bits);
        return V1;
      }
      if leftPad == V0 && rightPad == V1 {
        TopDecides(right.bits, left.bits);
        return V0;
      }
    }
    res := ScanOrder(left.bits, right.bits, leftPad, orEqual);
  }

  // ----- conversion to a native integer -----

  const LONG_BITS: nat := 63

  /** as_long: 0 when undefined; the low 63 bits under the sign when the value is longer. */
  function AsLong(v: Num4): int {
    if |v.bits| == 0 || !Defined(v.bits) then 0
    else Value(v.bits[..Min(|v.bits|, LONG_BITS)], SignBit(v))
  }

  const UINT_MAX: nat := 0xFFFF_FFFF

  /** as_unsigned: the value, or the largest unsigned when it does not fit. */
  function AsUnsigned(v: Num4): nat {
    if !Defined(v.bits) then 0
    else
      ValueRange(v.bits);
      Min(Value(v.bits, V0), UINT_MAX)
  }

  /** as_ulong */
  function AsUlong(v: Num4): nat {
    if !Defined(v.bits) then 0
    else
      ValueRange(v.bits);
      Min(Value(v.bits, V0), 0xFFFF_FFFF_FFFF_FFFF)
  }

  // ----- conversion from a native integer -----

  function HalvingSteps(m: nat): nat {
    if m == 0 then 0 else 1 + HalvingSteps(m / 2)
  }

  /** The signed unsized number made from a long. */
  function FromLong(n: int): Num4 {
    var m := if n < 0 then -(n + 1) else n;
    Num4(Encode(n, HalvingSteps(m / 2) + 2), false, true)
  }

  lemma {:induction false} HalvingBound(m: nat)
    ensures m < Pow2(HalvingSteps(m))
  {
    if m > 0 {
      HalvingBound(m / 2);
    }
  }

  lemma {:induction false} HalvingLow(m: nat)
    ensures m > 0 ==> Pow2(HalvingSteps(m) - 1) <= m
  {
    if m > 1 {
      HalvingLow(m / 2);
    }
  }

  /** The constructor from a long keeps the value. */
  lemma FromLongExact(n: int)
    ensures IntOf(FromLong(n)) == n && Defined(FromLong(n).bits) && |FromLong(n).bits| >= 2
  {
    hide Value, Encode, HalvingSteps;
    var m := if n < 0 then -(n + 1) else n;
    HalvingBound(m / 2);
    ExactWhenInRange(n, HalvingSteps(m / 2) + 2, true);
  }
}
