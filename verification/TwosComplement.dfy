/** Vectors as integers. `Value` reads a vector whose bits above the top all equal `pad`
    as an infinite two's complement number; `Encode` keeps the low bits of an integer. */
module TwosComplement {
  import opened FourState

  function Pow2(n: nat): (p: nat)
    ensures p > 0
  {
    if n == 0 then 1 else 2 * Pow2(n - 1)
  }

  function Value(v: Vec, pad: Bit): int {
    if |v| == 0 then 0 - BitVal(pad) else BitVal(v[0]) + 2 * Value(v[1..], pad)
  }

  function Encode(n: int, w: nat): (v: Vec)
    ensures |v| == w && Defined(v)
    decreases w
  {
    if w == 0 then [] else [FromBool(n % 2 == 1)] + Encode(n / 2, w - 1)
  }

  /** The pad that a vector implies: its top bit when signed, 0 when unsigned. */
  function SignPad(v: Vec, signed: bool): Bit {
    if signed && |v| > 0 then v[|v| - 1] else V0
  }

  function Num(v: Vec, signed: bool): int {
    Value(v, SignPad(v, signed))
  }

  function Magnitude(n: int): nat {
    if n < 0 then -n else n
  }

  lemma MulDistrib(p: int, a: int, b: int)
    ensures p * (a - b) == p * a - p * b
    ensures p * (a + b) == p * a + p * b
  {
  }

  lemma MulMonotone(p: int, a: int, b: int)
    requires p >= 0 && a <= b
    ensures p * a <= p * b
  {
  }

  lemma MulBounded(p: int, d: int)
    requires p > 0
    ensures d > 0 ==> p * d >= p
    ensures d < 0 ==> p * d <= -p
  {
    if d > 0 {
      MulMonotone(p, 1, d);
    } else if d < 0 {
      MulMonotone(p, d, -1);
    }
  }

  lemma ModUnique(n: int, p: nat, q: int, r: int)
    requires p > 0 && n == p * q + r && 0 <= r < p
    ensures n % p == r && n / p == q
  {
    var d := q - n / p;
    assert p * d == n % p - r by {
      MulDistrib(p, q, n / p);
    }
    MulBounded(p, d);
  }

  lemma MulAssoc(a: int, b: int, c: int)
    ensures a * (b * c) == (a * b) * c
  {
  }

  lemma ModDouble(n: int, p: nat)
    requires p > 0
    ensures n % (2 * p) == n % 2 + 2 * ((n / 2) % p)
  {
    var h := n / 2;
    var q, r := h / p, h % p;
    MulAssoc(2, p, q);
    ModUnique(n, 2 * p, q, n % 2 + 2 * r);
  }

  lemma {:induction false} ValueOfEncode(n: int, w: nat)
    ensures Value(Encode(n, w), V0) == n % Pow2(w)
    decreases w
  {
    if w > 0 {
      ValueOfEncode(n / 2, w - 1);
      assert Encode(n, w)[1..] == Encode(n / 2, w - 1);
      ModDouble(n, Pow2(w - 1));
    }
  }

  lemma {:induction false} EncodeOfValue(v: Vec, pad: Bit)
    requires Defined(v)
    ensures Encode(Value(v, pad), |v|) == v
  {
    if |v| > 0 {
      EncodeOfValue(v[1..], pad);
      var n := Value(v, pad);
      assert n / 2 == Value(v[1..], pad) && n % 2 == BitVal(v[0]);
      assert v == [v[0]] + v[1..];
    }
  }

  lemma {:induction false} EncodePrefix(n: int, w: nat, k: nat)
    requires k <= w
    ensures Encode(n, w)[..k] == Encode(n, k)
    decreases w
  {
    if k > 0 {
      EncodePrefix(n / 2, w - 1, k - 1);
      assert Encode(n, w)[..k] == [Encode(n, w)[0]] + Encode(n / 2, w - 1)[..k - 1];
    }
  }

  /** Congruence modulo 2^w, as a witness. */
  lemma {:induction false} EncodeCongruent(a: int, k: int, w: nat)
    ensures Encode(a + k * Pow2(w), w) == Encode(a, w)
    decreases w
  {
    if w > 0 {
      var p := Pow2(w - 1);
      var b := a + k * Pow2(w);
      MulAssoc(2, k, p);
      MulAssoc(k, 2, p);
      assert b / 2 == a / 2 + k * p && b % 2 == a % 2;
      EncodeCongruent(a / 2, k, w - 1);
    }
  }

  lemma EncodeStep(a: int, b: int, w: nat)
    requires w > 0 && Encode(a, w) == Encode(b, w)
    ensures a % 2 == b % 2 && Encode(a / 2, w - 1) == Encode(b / 2, w - 1)
  {
    assert Encode(a, w)[0] == Encode(b, w)[0];
    assert Encode(a, w)[1..] == Encode(a / 2, w - 1);
    assert Encode(b, w)[1..] == Encode(b / 2, w - 1);
  }

  lemma {:induction false} EncodeWitness(a: int, b: int, w: nat) returns (k: int)
    requires Encode(a, w) == Encode(b, w)
    ensures a == b + k * Pow2(w)
    decreases w
  {
    if w == 0 {
      k := a - b;
    } else {
      EncodeStep(a, b, w);
      k := EncodeWitness(a / 2, b / 2, w - 1);
      MulAssoc(2, k, Pow2(w - 1));
      MulAssoc(k, 2, Pow2(w - 1));
    }
  }

  lemma MulSigns(q: int, b: int)
    ensures -q * b == -(q * b) && q * -b == -(q * b)
  {
  }

  lemma MulCommutes(a: int, b: int)
    ensures a * b == b * a
  {
  }

  lemma {:induction false} EncodeSum(a: int, a2: int, b: int, w: nat)
    requires Encode(a, w) == Encode(a2, w)
    ensures Encode(a + b, w) == Encode(a2 + b, w)
    decreases w
  {
    if w > 0 {
      EncodeStep(a, a2, w);
      EncodeSum(a / 2, a2 / 2, (b + a % 2) / 2, w - 1);
      assert (a + b) / 2 == a / 2 + (b + a % 2) / 2;
      assert (a2 + b) / 2 == a2 / 2 + (b + a % 2) / 2;
    }
  }

  lemma {:induction false} EncodeDiff(a: int, a2: int, b: int, w: nat)
    requires Encode(a, w) == Encode(a2, w)
    ensures Encode(b - a, w) == Encode(b - a2, w)
    decreases w
  {
    if w > 0 {
      EncodeStep(a, a2, w);
      EncodeDiff(a / 2, a2 / 2, (b - a % 2) / 2, w - 1);
      assert (b - a) / 2 == (b - a % 2) / 2 - a / 2;
      assert (b - a2) / 2 == (b - a % 2) / 2 - a2 / 2;
    }
  }

  lemma EncodeProduct(a: int, a2: int, b: int, w: nat)
    requires Encode(a, w) == Encode(a2, w)
    ensures Encode(b * a, w) == Encode(b * a2, w)
  {
    var k := EncodeWitness(a, a2, w);
    MulDistrib(b, a2, k * Pow2(w));
    MulAssoc(b, k, Pow2(w));
    EncodeCongruent(b * a2, b * k, w);
  }

  /** The low bits of a sum, difference or product depend only on the low bits of the operands. */
  lemma EncodeRing(a: int, a2: int, b: int, b2: int, w: nat)
    requires Encode(a, w) == Encode(a2, w)
    requires Encode(b, w) == Encode(b2, w)
    ensures Encode(a + b, w) == Encode(a2 + b2, w)
    ensures Encode(a - b, w) == Encode(a2 - b2, w)
    ensures Encode(a * b, w) == Encode(a2 * b2, w)
  {
    EncodeSum(a, a2, b, w);
    EncodeSum(b, b2, a2, w);
    EncodeSum(a, a2, -b, w);
    EncodeDiff(b, b2, a2, w);
    EncodeProduct(a, a2, b, w);
    EncodeProduct(b, b2, a2, w);
    MulCommutes(a, b);
    MulCommutes(a2, b);
    MulCommutes(a2, b2);
  }

  /** Two pads read the same vector as congruent integers. */
  lemma PadIrrelevant(v: Vec, p: Bit, q: Bit)
    requires Defined(v)
    ensures Encode(Value(v, p), |v|) == Encode(Value(v, q), |v|)
  {
    EncodeOfValue(v, p);
    EncodeOfValue(v, q);
  }

  lemma {:induction false} AllOnesValue(n: nat)
    ensures Value(Fill(V1, n), V0) == Pow2(n) - 1
  {
    if n > 0 {
      AllOnesValue(n - 1);
      assert Fill(V1, n)[1..] == Fill(V1, n - 1);
    }
  }

  lemma {:induction false} ZeroValue(v: Vec)
    requires forall i :: 0 <= i < |v| ==> v[i] == V0
    ensures Value(v, V0) == 0
  {
    if |v| > 0 {
      ZeroValue(v[1..]);
    }
  }

  lemma {:induction false} ValueRange(v: Vec)
    ensures 0 <= Value(v, V0) < Pow2(|v|)
  {
    if |v| > 0 {
      ValueRange(v[1..]);
    }
  }

  lemma {:induction false} ValuePadded(v: Vec, pad: Bit)
    ensures Value(v, pad) == Value(v, V0) - BitVal(pad) * Pow2(|v|)
  {
    if |v| > 0 {
      ValuePadded(v[1..], pad);
    }
  }

  /** Splitting a vector: low part plus 2^k times high part. */
  lemma {:induction false} ValueSplit(v: Vec, k: nat, pad: Bit)
    requires k <= |v|
    ensures Value(v, pad) == Value(v[..k], V0) + Pow2(k) * Value(v[k..], pad)
  {
    if k > 0 {
      ValueSplit(v[1..], k - 1, pad);
      assert v[..k][1..] == v[1..][..k - 1];
      assert v[1..][k - 1..] == v[k..];
      MulAssoc(2, Pow2(k - 1), Value(v[k..], pad));
    } else {
      assert v[0..] == v;
    }
  }

  /** A signed vector of w bits lies in [-2^(w-1), 2^(w-1)). */
  lemma SignedRange(v: Vec)
    requires |v| > 0
    ensures 0 - Pow2(|v| - 1) <= Num(v, true) < Pow2(|v| - 1)
  {
    var t := v[|v| - 1];
    ValuePadded(v, t);
    ValueSplit(v, |v| - 1, V0);
    ValueRange(v[..|v| - 1]);
    assert v[|v| - 1..] == [t];
    assert Value([t], V0) == BitVal(t) + 2 * Value([t][1..], V0);
    assert Pow2(|v|) == 2 * Pow2(|v| - 1);
  }

  /** Extending with copies of the pad, or dropping such copies, keeps the value. */
  lemma {:induction false} ValueExtend(v: Vec, pad: Bit, n: nat)
    ensures Value(v + Fill(pad, n), pad) == Value(v, pad)
    decreases |v|, n
  {
    if |v| > 0 {
      ValueExtend(v[1..], pad, n);
      assert (v + Fill(pad, n))[1..] == v[1..] + Fill(pad, n);
    } else if n > 0 {
      ValueExtend(v, pad, n - 1);
      assert (v + Fill(pad, n))[1..] == v + Fill(pad, n - 1);
    } else {
      assert v + Fill(pad, 0) == v;
    }
  }

  /** Order is decided by the highest differing position. */
  lemma {:induction false} OrderFromTail(l: Vec, lp: Bit, r: Vec, rp: Bit, k: nat)
    requires k <= |l| && k <= |r|
    requires Value(l[k..], lp) < Value(r[k..], rp)
    ensures Value(l, lp) < Value(r, rp)
  {
    if k > 0 {
      assert l[1..][k - 1..] == l[k..] && r[1..][k - 1..] == r[k..];
      OrderFromTail(l[1..], lp, r[1..], rp, k - 1);
    } else {
      assert l[0..] == l && r[0..] == r;
    }
  }

  lemma Pow2Add(a: nat, b: nat)
    ensures Pow2(a + b) == Pow2(a) * Pow2(b)
  {
    if a > 0 {
      Pow2Add(a - 1, b);
      MulAssoc(2, Pow2(a - 1), Pow2(b));
    }
  }

  lemma Pow2Monotone(a: nat, b: nat)
    requires a <= b
    ensures Pow2(a) <= Pow2(b)
  {
    if a < b {
      Pow2Monotone(a, b - 1);
    }
  }

  // ----- bit positions of an integer -----

  function Shr(n: int, k: nat): int
    decreases k
  {
    if k == 0 then n else Shr(n / 2, k - 1)
  }

  lemma {:induction false} ShrStep(n: int, k: nat)
    ensures Shr(n, k + 1) == Shr(n, k) / 2
    decreases k
  {
    if k > 0 {
      ShrStep(n / 2, k - 1);
    }
  }

  lemma {:induction false} EncodeAt(n: int, w: nat, i: nat)
    requires i < w
    ensures Encode(n, w)[i] == FromBool(Shr(n, i) % 2 == 1)
    decreases w
  {
    if i > 0 {
      EncodeAt(n / 2, w - 1, i - 1);
    }
  }

  lemma {:induction false} EncodeSuffix(n: int, w: nat, k: nat)
    requires k <= w
    ensures Encode(n, w)[k..] == Encode(Shr(n, k), w - k)
    decreases w
  {
    if k > 0 {
      EncodeSuffix(n / 2, w - 1, k - 1);
      assert Encode(n, w)[k..] == Encode(n / 2, w - 1)[k - 1..];
    } else {
      assert Encode(n, w)[0..] == Encode(n, w);
    }
  }

  /** Adding x * 2^k leaves the low k bits alone and adds x to the rest. */
  lemma {:induction false} EncodeAddShifted(n: int, x: int, k: nat, w: nat)
    requires k <= w
    ensures Encode(n + Pow2(k) * x, w) == Encode(n, w)[..k] + Encode(Shr(n, k) + x, w - k)
    decreases k
  {
    if k > 0 {
      var y := Pow2(k - 1) * x;
      MulAssoc(2, Pow2(k - 1), x);
      EncodeAddShifted(n / 2, x, k - 1, w - 1);
      assert (n + 2 * y) / 2 == n / 2 + y && (n + 2 * y) % 2 == n % 2;
      assert Encode(n, w)[..k] == [Encode(n, w)[0]] + Encode(n / 2, w - 1)[..k - 1];
    }
  }

  lemma ZerosBelow(v: Vec, k: nat)
    ensures Value(Fill(V0, k) + v, V0) == Pow2(k) * Value(v, V0)
  {
    var u := Fill(V0, k) + v;
    ValueSplit(u, k, V0);
    assert u[..k] == Fill(V0, k) && u[k..] == v;
    ZeroValue(Fill(V0, k));
  }
}
