/** Four-valued bits and the single-bit operators of the number class
    (qflow-org/iverilog/verinum.cc:1585-1633). Vectors are least significant bit first. */
module FourState {
  datatype Bit = V0 | V1 | VX | VZ
  type Vec = seq<Bit>

  predicate Known(b: Bit) {
    b == V0 || b == V1
  }

  predicate Defined(v: Vec) {
    forall i :: 0 <= i < |v| ==> Known(v[i])
  }

  function BitVal(b: Bit): nat {
    if b == V1 then 1 else 0
  }

  function FromBool(b: bool): Bit {
    if b then V1 else V0
  }

  function Fill(b: Bit, w: nat): (v: Vec)
    ensures |v| == w
    ensures forall i :: 0 <= i < w ==> v[i] == b
  {
    seq(w, _ => b)
  }

  /** Bit i of a vector, with a given pad above its top. */
  function At(v: Vec, i: int, pad: Bit): Bit
    requires 0 <= i
  {
    if i < |v| then v[i] else pad
  }

  function Not(l: Bit): Bit {
    match l
    case V0 => V1
    case V1 => V0
    case _ => VX
  }

  function Z2X(b: Bit): Bit {
    if Known(b) then b else VX
  }

  function Or(l: Bit, r: Bit): Bit {
    if l == V1 then V1
    else if r == V1 then V1
    else if l != V0 then VX
    else if r != V0 then VX
    else V0
  }

  function And(l: Bit, r: Bit): Bit {
    if l == V0 then V0
    else if r == V0 then V0
    else if l != V1 then VX
    else if r != V1 then VX
    else V1
  }

  function Xor(l: Bit, r: Bit): Bit {
    if l == V0 then Z2X(r)
    else if r == V0 then Z2X(l)
    else if l == V1 && r == V1 then V0
    else VX
  }

  /** Information order: a known bit stays what it is, an x or z bit may become anything. */
  predicate Below(a: Bit, b: Bit) {
    Known(a) ==> a == b
  }

  predicate VecBelow(a: Vec, b: Vec) {
    |a| == |b| && forall i :: 0 <= i < |a| ==> Below(a[i], b[i])
  }
}
