/** Enumerations (qflow-org/iverilog/elab_scope.cc:164-376, qflow-org/iverilog/netenum.cc): the
    values that explicit and inferred names get, and the errors that guard them. */
module Enumeration {
  import opened FourState
  import opened TwosComplement
  import opened Verinum
  import opened NetExpr
  import WidthSound

  /** The expression given for a name: not a constant, or a constant. `ownLen` is the length that
      a literal is written with; other expressions and literals without a length have none. */
  datatype Given = NotConstant | Constant(v: Num4, ownLen: Option<nat>)

  datatype Item = Item(name: nat, given: Option<Given>)
  datatype EnumType = EnumType(w: nat, signed: bool, twoState: bool)

  predicate WellItem(item: Item) {
    item.given.Some? && item.given.value.Constant? ==> |item.given.value.v.bits| > 0
  }

  predicate WellItems(items: seq<Item>) {
    forall i :: 0 <= i < |items| ==> WellItem(items[i])
  }

  function Start(t: EnumType): Num4 {
    Num4(Encode(0, t.w), true, t.signed)
  }

  function One(t: EnumType): Num4 {
    Num4(Encode(1, t.w), true, t.signed)
  }

  // ----- the largest value -----

  /** The largest value as the code computes it. */
  function MaxInt(t: EnumType): int
    requires t.w > 0
  {
    if t.signed then Pow2(t.w - 1) - IntOf(One(t)) else Pow2(t.w) - 1
  }

  /** In one signed bit, 1 reads as -1. */
  lemma OneIsOne(t: EnumType)
    requires t.w > 0
    ensures IntOf(One(t)) == if t.signed && t.w == 1 then -1 else 1
  {
    if t.signed && t.w == 1 {
      assert Encode(1, 1) == [V1];
      assert Value([V1], V1) == 1 + 2 * Value([V1][1..], V1);
    } else {
      if t.signed {
        Pow2Monotone(1, t.w - 1);
      } else {
        Pow2Monotone(1, t.w);
      }
      ExactWhenInRange(1, t.w, t.signed);
    }
  }

  /** pow(2, n): an unsized signed number, trimmed. */
  function PowerOfTwo(n: nat): Num4 {
    Num4(Encode(Pow2(n), n + 2), false, true)
  }

  predicate IsMax(m: Num4, t: EnumType)
    requires t.w > 0
  {
    Defined(m.bits) && |m.bits| > 0 && m.hasSign == t.signed && IntOf(m) == MaxInt(t)
  }

  lemma PowerExact(n: nat)
    ensures IntOf(PowerOfTwo(n)) == Pow2(n)
  {
    assert Pow2(n + 1) == 2 * Pow2(n);
    ExactWhenInRange(Pow2(n), n + 2, true);
  }

  /** pow(2, n) less a number of a bit or so, with the sign of that number. */
  method PowerLess(n: nat, one: Num4) returns (m: Num4)
    requires Defined(one.bits) && one.hasLen && 0 < |one.bits| <= n + 2
    requires one.hasSign || (0 <= IntOf(one) <= Pow2(n))
    ensures Defined(m.bits) && |m.bits| > 0 && m.hasSign == one.hasSign && IntOf(m) == Pow2(n) - IntOf(one)
  {
    var p := PowerOfTwo(n);
    PowerExact(n);
    m := Minus(p, one);
    if !one.hasSign {
      Pow2Monotone(n + 1, |m.bits|);
      assert Pow2(n + 1) == 2 * Pow2(n);
      ExactWhenInRange(Pow2(n) - IntOf(one), |m.bits|, false);
    }
  }

  method MaxValue(t: EnumType) returns (m: Num4)
    requires t.w > 0
    ensures IsMax(m, t)
  {
    if t.signed {
      m := PowerLess(t.w - 1, One(t));
    } else {
      OneIsOne(t);
      m := PowerLess(t.w, One(t));
    }
  }

  // ----- comparing numbers -----

  /** operator ==, bit for bit, x and z included. */
  predicate SameNumber(l: Num4, r: Num4) {
    var signed := l.hasSign && r.hasSign;
    var n := Max(|l.bits|, |r.bits|);
    && !(signed && Known(SignBit(l)) && Known(SignBit(r)) && SignBit(l) != SignBit(r))
    && ExtendVec(l.bits, signed, n) == ExtendVec(r.bits, signed, n)
  }

  method EqualNumbers(l: Num4, r: Num4) returns (same: bool)
    requires |l.bits| > 0 && |r.bits| > 0
    ensures same == SameNumber(l, r)
  {
    var leftPad, rightPad := V0, V0;
    if l.hasSign && r.hasSign {
      leftPad := l.bits[|l.bits| - 1];
      rightPad := r.bits[|r.bits| - 1];
      if leftPad == V1 && rightPad == V0 {
        return false;
      }
      if leftPad == V0 && rightPad == V1 {
        return false;
      }
    }
    var signed := l.hasSign && r.hasSign;
    var maxLen := Max(|l.bits|, |r.bits|);
    for idx := 0 to maxLen
      invariant forall j :: 0 <= j < idx ==>
                  ExtendVec(l.bits, signed, maxLen)[j] == ExtendVec(r.bits, signed, maxLen)[j]
    {
      var leftBit := if idx < |l.bits| then l.bits[idx] else leftPad;
      var rightBit := if idx < |r.bits| then r.bits[idx] else rightPad;
      assert leftBit == ExtendVec(l.bits, signed, maxLen)[idx] && rightBit == ExtendVec(r.bits, signed, maxLen)[idx];
      if leftBit != rightBit {
        return false;
      }
    }
    return true;
  }

  lemma FitsLonger(v: Num4, n: nat)
    requires |v.bits| > 0 && n >= |v.bits|
    ensures Fits(IntOf(v), n, v.hasSign)
  {
    IntRange(v);
    Pow2Monotone(|v.bits| - 1, n - 1);
    Pow2Monotone(|v.bits|, n);
  }

  lemma SignOfInt(v: Num4)
    requires |v.bits| > 0 && v.hasSign && Defined(v.bits)
    ensures SignBit(v) == V1 <==> IntOf(v) < 0
  {
    ValuePadded(v.bits, SignBit(v));
    ValueRange(v.bits);
  }

  /** Defined numbers of one sign compare equal exactly when they are the same integer. */
  lemma SameNumberIsSameInt(l: Num4, r: Num4)
    requires Defined(l.bits) && Defined(r.bits) && |l.bits| > 0 && |r.bits| > 0 && l.hasSign == r.hasSign
    ensures SameNumber(l, r) <==> IntOf(l) == IntOf(r)
  {
    var n := Max(|l.bits|, |r.bits|);
    WidthSound.ExtendEncodes(l.bits, l.hasSign, n);
    WidthSound.ExtendEncodes(r.bits, l.hasSign, n);
    FitsLonger(l, n);
    FitsLonger(r, n);
    ExactWhenInRange(IntOf(l), n, l.hasSign);
    ExactWhenInRange(IntOf(r), n, l.hasSign);
    if l.hasSign && IntOf(l) == IntOf(r) {
      SignOfInt(l);
      SignOfInt(r);
    }
  }

  /** Numbers of one width and sign are equal exactly bit for bit. */
  lemma SameWidthSameBits(l: Num4, r: Num4)
    requires |l.bits| == |r.bits| > 0 && l.hasSign == r.hasSign
    ensures SameNumber(l, r) <==> l.bits == r.bits
  {
    var n := |l.bits|;
    assert ExtendVec(l.bits, l.hasSign, n) == l.bits && ExtendVec(r.bits, l.hasSign, n) == r.bits;
  }

  // ----- explicit values -----

  predicate Repeats(v: Vec, from: nat, b: Bit) {
    forall i :: from <= i < |v| ==> v[i] == b
  }

  /** The bits above the enumeration repeat its top bit, or are 0 in an unsigned one, and a
      value without a sign has no 1 just above. */
  predicate TrimLegal(v: Num4, t: EnumType)
    requires |v.bits| > t.w > 0
  {
    && (Repeats(v.bits, t.w, v.bits[t.w - 1]) || (!t.signed && Repeats(v.bits, t.w, V0)))
    && (!v.hasSign ==> v.bits[t.w] != V1)
  }

  predicate GivenLegal(v: Num4, ownLen: Option<nat>, t: EnumType)
    requires |v.bits| > 0 && t.w > 0
  {
    && (t.twoState ==> Defined(v.bits))
    && (ownLen.Some? ==> ownLen.value == t.w)
    && ((|v.bits| != t.w || !v.hasLen) && !t.signed ==> !Negative(v))
    && (|v.bits| > t.w ==> TrimLegal(v, t))
  }

  /** The value cut or extended to the enumeration, with the enumeration's sign. */
  function Fitted(v: Num4, t: EnumType): Num4 {
    Num4(CastToWidth(v, t.w).bits, true, t.signed)
  }

  /** The checks on the bits that a narrower enumeration cuts off. `stop` leaves the name list. */
  method CheckTrim(v: Num4, t: EnumType) returns (errs: nat, stop: bool)
    requires |v.bits| > t.w > 0
    ensures errs == 0 <==> TrimLegal(v, t)
    ensures stop ==> errs > 0
  {
    errs, stop := 0, false;
    var checkWidth := t.w - 1;
    var idx := t.w;
    while idx < |v.bits|
      invariant t.w <= idx <= |v.bits|
      invariant checkWidth == t.w - 1 || (checkWidth == t.w && !t.signed && v.bits[t.w] == V0 && idx > t.w)
      invariant forall j :: t.w <= j < idx ==> v.bits[j] == v.bits[checkWidth]
      invariant checkWidth == t.w ==> v.bits[t.w - 1] != V0
    {
      if v.bits[idx] != v.bits[checkWidth] {
        if !t.signed && idx == t.w && v.bits[idx] == V0 {
          checkWidth := checkWidth + 1;
          idx := idx + 1;
          continue;
        }
        errs := errs + 1;
        break;
      }
      idx := idx + 1;
    }
    if errs == 0 {
      assert v.bits[t.w] == v.bits[checkWidth];
      assert Repeats(v.bits, t.w, v.bits[checkWidth]);
    } else {
      assert idx < |v.bits| && v.bits[idx] != v.bits[checkWidth];
      assert !Repeats(v.bits, t.w, v.bits[checkWidth]);
      if checkWidth == t.w - 1 && !t.signed {
        assert idx == t.w ==> v.bits[idx] != V0;
        assert idx > t.w ==> v.bits[t.w] == v.bits[checkWidth];
        assert !Repeats(v.bits, t.w, V0);
      } else if checkWidth == t.w {
        assert !Repeats(v.bits, t.w, v.bits[t.w - 1]);
      }
    }
    if !v.hasSign && v.bits[t.w] == V1 {
      errs := errs + 1;
      stop := true;
    }
  }

  /** The checks on an explicit value. */
  method CheckGiven(v: Num4, ownLen: Option<nat>, t: EnumType) returns (errs: nat, stop: bool)
    requires |v.bits| > 0 && t.w > 0
    ensures errs == 0 <==> GivenLegal(v, ownLen, t)
    ensures stop ==> errs > 0
  {
    errs, stop := 0, false;
    if t.twoState && !Defined(v.bits) {
      errs := errs + 1;
    }
    if ownLen.Some? && ownLen.value != t.w {
      errs := errs + 1;
    }
    if (|v.bits| != t.w || !v.hasLen) && !t.signed && Negative(v) {
      errs := errs + 1;
    }
    if |v.bits| > t.w {
      var more, out := CheckTrim(v, t);
      errs, stop := errs + more, out;
    }
  }

  lemma {:induction false} ValueZeroOrMinusOne(u: Vec, pad: Bit)
    requires Defined(u) && Known(pad)
    ensures Value(u, pad) == 0 <==> pad == V0 && Repeats(u, 0, V0)
    ensures Value(u, pad) == -1 <==> pad == V1 && Repeats(u, 0, V1)
  {
    if |u| > 0 {
      ValueZeroOrMinusOne(u[1..], pad);
      assert forall i :: 1 <= i < |u| ==> u[i] == u[1..][i - 1];
      assert forall i :: 0 <= i < |u| - 1 ==> u[1..][i] == u[i + 1];
    }
  }

  lemma HighPart(n: int, low: int, p: nat, h: int)
    requires n == low + p * h && 0 <= low < p
    ensures 0 <= n < p <==> h == 0
    ensures 0 - p <= n < p <==> h == 0 || h == -1
  {
    MulBounded(p, h);
    MulBounded(p, h + 1);
    MulDistrib(p, h, 1);
  }

  lemma RepeatsSuffix(v: Vec, k: nat, b: Bit)
    requires k <= |v|
    ensures Repeats(v[k..], 0, b) <==> Repeats(v, k, b)
  {
    assert forall i :: k <= i < |v| ==> v[i] == v[k..][i - k];
    assert forall i :: 0 <= i < |v| - k ==> v[k..][i] == v[i + k];
  }

  /** Cutting is legal exactly when the integer fits what remains. */
  lemma TrimExactness(v: Num4, t: EnumType)
    requires Defined(v.bits) && |v.bits| > t.w > 0
    ensures TrimLegal(v, t) && (t.signed || !Negative(v)) <==> Fits(IntOf(v), t.w, t.signed)
  {
    var pad := SignBit(v);
    var k := if t.signed then t.w - 1 else t.w;
    SignBitKnown(v);
    ValueSplit(v.bits, k, pad);
    ValueRange(v.bits[..k]);
    HighPart(IntOf(v), Value(v.bits[..k], V0), Pow2(k), Value(v.bits[k..], pad));
    ValueZeroOrMinusOne(v.bits[k..], pad);
    RepeatsSuffix(v.bits, k, V0);
    RepeatsSuffix(v.bits, k, V1);
  }

  /** A value of another width is accepted exactly when its integer fits the enumeration. */
  lemma GivenExactness(v: Num4, t: EnumType)
    requires Defined(v.bits) && |v.bits| > 0 && t.w > 0 && |v.bits| != t.w
    ensures GivenLegal(v, None, t) <==> Fits(IntOf(v), t.w, t.signed)
  {
    if |v.bits| > t.w {
      TrimExactness(v, t);
    } else {
      IntRange(v);
      Pow2Monotone(|v.bits|, t.w - 1);
      assert Pow2(|v.bits|) == 2 * Pow2(|v.bits| - 1);
      assert Pow2(t.w) == 2 * Pow2(t.w - 1);
      if v.hasSign {
        SignOfInt(v);
      }
    }
  }

  /** Padding and cutting an accepted value keep its integer. */
  lemma FittedKeepsInteger(v: Num4, ownLen: Option<nat>, t: EnumType)
    requires Defined(v.bits) && |v.bits| > 0 && t.w > 0 && |v.bits| != t.w && GivenLegal(v, ownLen, t)
    ensures IntOf(Fitted(v, t)) == IntOf(v)
  {
    GivenExactness(v, t);
    CastKeepsValue(v, t.w);
    ExactWhenInRange(IntOf(v), t.w, t.signed);
  }

  // ----- the table of names -----

  class EnumTable {
    var names: map<nat, Num4>

    constructor ()
      ensures names == map[]
    {
      names := map[];
    }

    /** insert_name: an old name keeps its value. */
    method InsertName(name: nat, val: Num4) returns (unique: bool)
      modifies this
      ensures names == if name in old(names) then old(names) else old(names)[name := val]
      ensures unique == (name !in old(names))
    {
      unique := name !in names;
      if unique {
        names := names[name := val];
      }
    }

    /** find_value. */
    predicate HasValue(val: Num4)
      reads this
    {
      exists k :: k in names && SameNumber(names[k], val)
    }
  }

  // ----- what each name should get -----

  /** The successor in the enumeration's width; an undefined value has none and stays. */
  function Next(v: Num4, t: EnumType): Num4 {
    Num4(if Defined(v.bits) then Encode(IntOf(v) + IntOf(One(t)), t.w) else v.bits, true, t.signed)
  }

  function ValueAt(items: seq<Item>, i: nat, t: EnumType): (v: Num4)
    requires i < |items|
    ensures |v.bits| == t.w && v.hasLen && v.hasSign == t.signed
  {
    match items[i].given
    case Some(Constant(v, _)) => Fitted(v, t)
    case Some(NotConstant) => Start(t)
    case None => if i == 0 then Start(t) else Next(ValueAt(items, i - 1, t), t)
  }

  predicate SourceLegal(items: seq<Item>, i: nat, t: EnumType)
    requires i < |items| && WellItems(items) && t.w > 0
  {
    match items[i].given
    case Some(Constant(v, ownLen)) => GivenLegal(v, ownLen, t)
    case Some(NotConstant) => false
    case None =>
      i > 0 ==> Defined(ValueAt(items, i - 1, t).bits) && IntOf(ValueAt(items, i - 1, t)) != MaxInt(t)
  }

  /** No earlier name has the value, and none is the name. */
  predicate New(items: seq<Item>, i: nat, t: EnumType)
    requires i < |items|
  {
    forall j :: 0 <= j < i ==>
      ValueAt(items, j, t).bits != ValueAt(items, i, t).bits && items[j].name != items[i].name
  }

  predicate Legal(items: seq<Item>, i: nat, t: EnumType)
    requires i < |items| && WellItems(items) && t.w > 0
  {
    SourceLegal(items, i, t) && New(items, i, t)
  }

  // ----- the loop over the names -----

  /** The table holds the first names with these values, and nothing else. */
  ghost predicate Tabled(items: seq<Item>, vals: seq<Num4>, names: map<nat, Num4>)
    requires |vals| <= |items|
  {
    && (forall j :: 0 <= j < |vals| ==> items[j].name in names && names[items[j].name] == vals[j])
    && (forall k :: k in names ==> exists j :: 0 <= j < |vals| && items[j].name == k)
  }

  function Values(items: seq<Item>, n: nat, t: EnumType): (vals: seq<Num4>)
    requires n <= |items|
    ensures |vals| == n
    ensures forall j: nat :: j < n ==> vals[j] == ValueAt(items, j, t)
  {
    seq(n, j requires 0 <= j < n => ValueAt(items, j, t))
  }

  /** What the next inferred value would be, and whether it would overflow. */
  predicate Poised(items: seq<Item>, n: nat, t: EnumType, cur: Num4, wrapped: bool)
    requires n <= |items| && t.w > 0
  {
    if n == 0 then cur == Start(t) && !wrapped
    else
      var v := ValueAt(items, n - 1, t);
      cur == Next(v, t) && (wrapped <==> Defined(v.bits) && IntOf(v) == MaxInt(t))
  }

  /** The state of the loop after n names without an error. */
  ghost predicate OnCourse(items: seq<Item>, n: nat, t: EnumType, cur: Num4, wrapped: bool, names: map<nat, Num4>)
    requires n <= |items| && t.w > 0
  {
    Poised(items, n, t, cur, wrapped) && Tabled(items, Values(items, n, t), names)
  }

  predicate Shaped(v: Num4, t: EnumType) {
    |v.bits| == t.w && v.hasLen && v.hasSign == t.signed
  }

  /** What the value comes from: the checks of an explicit one, or the flags of an inferred one.
      `skip` goes to the next name, `stop` ends the list. */
  method TakeValue(item: Item, cur: Num4, wrapped: bool, t: EnumType)
    returns (value: Num4, errs: nat, overflow: bool, skip: bool, stop: bool)
    requires t.w > 0 && WellItem(item)
    ensures skip || stop ==> errs > 0
    ensures item.given == Some(NotConstant) ==> skip
    ensures Shaped(cur, t) ==> Shaped(value, t)
    ensures match item.given
            case Some(Constant(v, ownLen)) =>
              (errs == 0 <==> GivenLegal(v, ownLen, t)) && (errs == 0 ==> value == Fitted(v, t) && !overflow)
            case Some(NotConstant) => errs > 0
            case None => (errs == 0 <==> Defined(cur.bits)) && value == cur && overflow == wrapped
  {
    value, errs, overflow, skip, stop := cur, 0, wrapped, false, false;
    match item.given {
      case Some(NotConstant) =>
        errs, skip := 1, true;
      case Some(Constant(v, ownLen)) =>
        overflow := false;
        errs, stop := CheckGiven(v, ownLen, t);
        value := Fitted(v, t);
      case None =>
        if !Defined(cur.bits) {
          errs, skip := 1, true;
        }
    }
  }

  /** In case the next name has an implicit value: one more, and whether this was the largest. */
  method Advance(value: Num4, wrapped: bool, max: Num4, t: EnumType) returns (cur: Num4, over: bool)
    requires t.w > 0 && |value.bits| == t.w && value.hasLen && value.hasSign == t.signed
    requires IsMax(max, t)
    ensures cur == Next(value, t)
    ensures over == (wrapped || (Defined(value.bits) && IntOf(value) == MaxInt(t)))
  {
    cur, over := value, wrapped;
    if Defined(value.bits) {
      SameNumberIsSameInt(value, max);
      var same := EqualNumbers(value, max);
      if same {
        over := true;
      }
      cur := Plus(value, One(t));
    }
  }

  /** find_value finds a value exactly when an earlier name has the same bits. */
  lemma DuplicateMeansEarlier(items: seq<Item>, vals: seq<Num4>, t: EnumType, table: EnumTable, value: Num4)
    requires |vals| <= |items| && t.w > 0 && Shaped(value, t)
    requires forall j :: 0 <= j < |vals| ==> Shaped(vals[j], t)
    requires Tabled(items, vals, table.names)
    ensures table.HasValue(value) <==> exists j :: 0 <= j < |vals| && vals[j].bits == value.bits
  {
    if table.HasValue(value) {
      var k :| k in table.names && SameNumber(table.names[k], value);
      var j :| 0 <= j < |vals| && items[j].name == k;
      SameWidthSameBits(vals[j], value);
    }
    if j :| 0 <= j < |vals| && vals[j].bits == value.bits {
      SameWidthSameBits(vals[j], value);
      assert items[j].name in table.names;
    }
  }

  /** Whether the value is new and the name is new, and the table after it. */
  method Record(name: nat, value: Num4, table: EnumTable) returns (errs: nat)
    modifies table
    ensures errs == 0 <==> !old(table.HasValue(value)) && name !in old(table.names)
    ensures table.names == if name in old(table.names) then old(table.names) else old(table.names)[name := value]
  {
    errs := 0;
    if table.HasValue(value) {
      errs := errs + 1;
    }
    var unique := table.InsertName(name, value);
    if !unique {
      errs := errs + 1;
    }
  }

  lemma RecordedStep(items: seq<Item>, vals: seq<Num4>, value: Num4, names: map<nat, Num4>, names2: map<nat, Num4>)
    requires |vals| < |items| && Tabled(items, vals, names)
    requires items[|vals|].name !in names && names2 == names[items[|vals|].name := value]
    ensures Tabled(items, vals + [value], names2)
  {
    forall k | k in names2
      ensures exists j :: 0 <= j < |vals| + 1 && items[j].name == k
    {
      if k == items[|vals|].name {
        assert items[|vals|].name == k;
      } else {
        assert k in names;
      }
    }
  }

  lemma NewExactly(items: seq<Item>, n: nat, t: EnumType, table: EnumTable)
    requires n < |items| && t.w > 0 && Tabled(items, Values(items, n, t), table.names)
    ensures New(items, n, t) <==> !table.HasValue(ValueAt(items, n, t)) && items[n].name !in table.names
  {
    var vals := Values(items, n, t);
    DuplicateMeansEarlier(items, vals, t, table, ValueAt(items, n, t));
    assert forall j: nat :: j < n ==> (vals[j].bits == ValueAt(items, j, t).bits);
  }

  lemma PoisedNext(items: seq<Item>, n: nat, t: EnumType, next: Num4, over: bool)
    requires n < |items| && t.w > 0 && next == Next(ValueAt(items, n, t), t)
    requires over <==> Defined(ValueAt(items, n, t).bits) && IntOf(ValueAt(items, n, t)) == MaxInt(t)
    ensures Poised(items, n + 1, t, next, over)
  {
  }

  lemma TabledNext(items: seq<Item>, n: nat, t: EnumType, names: map<nat, Num4>, names2: map<nat, Num4>)
    requires n < |items| && Tabled(items, Values(items, n, t), names)
    requires items[n].name !in names && names2 == names[items[n].name := ValueAt(items, n, t)]
    ensures Tabled(items, Values(items, n + 1, t), names2)
  {
    hide ValueAt;
    RecordedStep(items, Values(items, n, t), ValueAt(items, n, t), names, names2);
    assert Values(items, n, t) + [ValueAt(items, n, t)] == Values(items, n + 1, t);
  }

  /** The second half of a name: record the value and step on. */
  method FinishName(items: seq<Item>, n: nat, t: EnumType, value: Num4, overflow: bool, max: Num4, table: EnumTable,
      ghost sound: bool)
    returns (errs: nat, next: Num4, over: bool)
    requires t.w > 0 && n < |items| && Shaped(value, t)
    requires IsMax(max, t)
    requires sound ==> value == ValueAt(items, n, t) && !overflow && Tabled(items, Values(items, n, t), table.names)
    modifies table
    ensures Shaped(next, t)
    ensures sound ==> (errs == 0 <==> New(items, n, t))
    ensures sound && errs == 0 ==>
              Poised(items, n + 1, t, next, over) && Tabled(items, Values(items, n + 1, t), table.names)
  {
    ghost var before := table.names;
    if sound {
      NewExactly(items, n, t, table);
    }
    errs := Record(items[n].name, value, table);
    next, over := Advance(value, overflow, max, t);
    if sound && errs == 0 {
      PoisedNext(items, n, t, next, over);
      TabledNext(items, n, t, before, table.names);
    }
  }

  lemma SourceRefused(items: seq<Item>, n: nat, t: EnumType, cur: Num4, wrapped: bool)
    requires t.w > 0 && WellItems(items) && n < |items| && WellItem(items[n])
    requires Poised(items, n, t, cur, wrapped)
    requires match items[n].given
             case None => !Defined(cur.bits)
             case Some(g) => g.Constant? ==> !GivenLegal(g.v, g.ownLen, t)
    ensures !SourceLegal(items, n, t)
  {
  }

  /** No error so far exactly when the item may take its value here, which it then has. */
  predicate Checked(item: Item, cur: Num4, wrapped: bool, t: EnumType, value: Num4, errs: nat)
    requires t.w > 0 && WellItem(item)
  {
    match item.given
    case None => (errs == 0 <==> Defined(cur.bits) && !wrapped) && value == cur
    case Some(g) =>
      g.Constant? && (errs == 0 <==> GivenLegal(g.v, g.ownLen, t)) && (errs == 0 ==> value == Fitted(g.v, t))
  }

  lemma SourceChecked(items: seq<Item>, n: nat, t: EnumType, cur: Num4, wrapped: bool, value: Num4, errs: nat)
    requires t.w > 0 && WellItems(items) && n < |items| && WellItem(items[n])
    requires Poised(items, n, t, cur, wrapped)
    requires Checked(items[n], cur, wrapped, t, value, errs)
    ensures errs == 0 <==> SourceLegal(items, n, t)
    ensures errs == 0 ==> value == ValueAt(items, n, t)
  {
  }

  /** One name. While nothing has gone wrong, it goes wrong here exactly when the name is not legal. */
  method StepName(items: seq<Item>, n: nat, t: EnumType, cur: Num4, wrapped: bool, max: Num4, table: EnumTable,
      ghost onCourse: bool)
    returns (errs: nat, next: Num4, over: bool, stop: bool)
    requires t.w > 0 && WellItems(items) && n < |items| && Shaped(cur, t)
    requires IsMax(max, t)
    requires onCourse ==> OnCourse(items, n, t, cur, wrapped, table.names)
    modifies table
    ensures stop ==> errs > 0
    ensures Shaped(next, t)
    ensures onCourse ==> (errs == 0 <==> Legal(items, n, t))
    ensures onCourse && errs == 0 ==> OnCourse(items, n + 1, t, next, over, table.names)
  {
    assert WellItem(items[n]);
    var value, overflow, skip;
    value, errs, overflow, skip, stop := TakeValue(items[n], cur, wrapped, t);
    next, over := cur, wrapped;
    if stop || skip {
      if onCourse {
        SourceRefused(items, n, t, cur, wrapped);
      }
      return;
    }
    if overflow {
      errs := errs + 1;
    }
    if onCourse {
      SourceChecked(items, n, t, cur, wrapped, value, errs);
    }
    var more;
    more, next, over := FinishName(items, n, t, value, overflow, max, table, onCourse && errs == 0);
    errs := errs + more;
  }

  ghost predicate LegalUpTo(items: seq<Item>, n: nat, t: EnumType)
    requires n <= |items| && WellItems(items) && t.w > 0
  {
    forall i: nat :: i < n ==> Legal(items, i, t)
  }

  /** The loop invariant: nothing went wrong exactly when all names so far are legal. */
  ghost predicate Course(items: seq<Item>, n: nat, t: EnumType, cur: Num4, wrapped: bool, table: EnumTable, errors: nat)
    requires n <= |items| && WellItems(items) && t.w > 0
    reads table
  {
    && Shaped(cur, t)
    && (errors == 0 <==> LegalUpTo(items, n, t))
    && (errors == 0 ==> OnCourse(items, n, t, cur, wrapped, table.names))
  }

  lemma CourseEnd(items: seq<Item>, t: EnumType, cur: Num4, wrapped: bool, table: EnumTable, errors: nat)
    requires WellItems(items) && t.w > 0 && Course(items, |items|, t, cur, wrapped, table, errors)
    ensures errors == 0 <==> LegalUpTo(items, |items|, t)
    ensures errors == 0 ==> Tabled(items, Values(items, |items|, t), table.names)
  {
  }

  lemma LegalBefore(items: seq<Item>, n: nat, t: EnumType)
    requires n <= |items| && WellItems(items) && t.w > 0
    ensures LegalUpTo(items, |items|, t) ==> LegalUpTo(items, n, t)
  {
  }

  lemma CourseLeft(items: seq<Item>, n: nat, t: EnumType, cur: Num4, wrapped: bool, table: EnumTable, errors: nat)
    requires n <= |items| && WellItems(items) && t.w > 0 && Course(items, n, t, cur, wrapped, table, errors)
        && errors > 0
    ensures !LegalUpTo(items, |items|, t)
  {
    LegalBefore(items, n, t);
  }

  lemma CourseStart(items: seq<Item>, t: EnumType, table: EnumTable)
    requires WellItems(items) && t.w > 0 && table.names == map[]
    ensures Course(items, 0, t, Start(t), false, table, 0)
  {
  }

  lemma LegalStep(items: seq<Item>, n: nat, t: EnumType)
    requires n < |items| && WellItems(items) && t.w > 0
    ensures LegalUpTo(items, n + 1, t) <==> LegalUpTo(items, n, t) && Legal(items, n, t)
  {
  }

  method Round(items: seq<Item>, n: nat, t: EnumType, cur: Num4, wrapped: bool, max: Num4, table: EnumTable,
      before: nat)
    returns (errors: nat, next: Num4, over: bool, stop: bool)
    requires n < |items| && t.w > 0 && WellItems(items) && Course(items, n, t, cur, wrapped, table, before)
    requires IsMax(max, t)
    modifies table
    ensures Course(items, n + 1, t, next, over, table, errors)
    ensures stop ==> errors > 0
  {
    var errs;
    errs, next, over, stop := StepName(items, n, t, cur, wrapped, max, table, before == 0);
    LegalStep(items, n, t);
    errors := before + errs;
  }

  /** The values of an enumeration: no error is counted exactly when every name is legal, and
      then the table holds just those names with the values that they should get. */
  method ElaborateEnumeration(items: seq<Item>, t: EnumType, table: EnumTable) returns (errors: nat)
    requires t.w > 0 && WellItems(items) && table.names == map[]
    modifies table
    ensures errors == 0 <==> LegalUpTo(items, |items|, t)
    ensures errors == 0 ==> Tabled(items, Values(items, |items|, t), table.names)
  {
    hide *;
    var max := MaxValue(t);
    var cur, wrapped := Start(t), false;
    errors := 0;
    CourseStart(items, t, table);
    for n := 0 to |items|
      invariant Course(items, n, t, cur, wrapped, table, errors)
    {
      var stop;
      errors, cur, wrapped, stop := Round(items, n, t, cur, wrapped, max, table, errors);
      if stop {
        CourseLeft(items, n + 1, t, cur, wrapped, table, errors);
        return;
      }
    }
    CourseEnd(items, t, cur, wrapped, table, errors);
  }

  // ----- what an enumeration without errors promises (section 6.19 of IEEE 1800-2012) -----

  /** Defined values are different integers, each within the enumeration's range. */
  lemma ValuesDistinct(items: seq<Item>, t: EnumType, i: nat, j: nat)
    requires WellItems(items) && t.w > 0 && LegalUpTo(items, |items|, t) && i < j < |items|
    requires Defined(ValueAt(items, i, t).bits) && Defined(ValueAt(items, j, t).bits)
    ensures IntOf(ValueAt(items, i, t)) != IntOf(ValueAt(items, j, t))
    ensures Fits(IntOf(ValueAt(items, i, t)), t.w, t.signed) && Fits(IntOf(ValueAt(items, j, t)), t.w, t.signed)
  {
    var a, b := ValueAt(items, i, t), ValueAt(items, j, t);
    FitsLonger(a, t.w);
    FitsLonger(b, t.w);
    assert Legal(items, j, t);
    SameNumberIsSameInt(a, b);
    SameWidthSameBits(a, b);
  }

  /** In one signed bit the successor of 0 is -1 and the successor of -1 is 0. */
  lemma OneBitNext(v: Num4, t: EnumType)
    requires t == EnumType(1, true, t.twoState) && Shaped(v, t) && Defined(v.bits)
    ensures (IntOf(v) == 0 && IntOf(Next(v, t)) == -1) || (IntOf(v) == -1 && IntOf(Next(v, t)) == 0)
  {
    IntRange(v);
    OneIsOne(t);
    ExactWhenInRange(-1, 1, true);
    ExactWhenInRange(0, 1, true);
    assert Encode(-2, 1) == [V0] && Encode(0, 1) == [V0];
  }

  lemma NextInRange(v: Num4, t: EnumType)
    requires t.w > 0 && Shaped(v, t) && Defined(v.bits) && IntOf(v) != MaxInt(t)
    ensures IntOf(Next(v, t)) == IntOf(v) + 1 <==> !(t.signed && t.w == 1 && IntOf(v) == 0)
  {
    OneIsOne(t);
    IntRange(v);
    assert Pow2(t.w) == 2 * Pow2(t.w - 1);
    if t.signed && t.w == 1 {
      OneBitNext(v, t);
    } else {
      ExactWhenInRange(IntOf(v) + 1, t.w, t.signed);
    }
  }

  /** An inferred value is its predecessor plus one, as integers, exactly when the predecessor
      is not the 0 of one signed bit. */
  lemma InferredExactness(items: seq<Item>, t: EnumType, i: nat)
    requires WellItems(items) && t.w > 0 && LegalUpTo(items, |items|, t)
    requires 0 < i < |items| && items[i].given == None
    ensures IntOf(ValueAt(items, i, t)) == IntOf(ValueAt(items, i - 1, t)) + 1
            <==> !(t.signed && t.w == 1 && IntOf(ValueAt(items, i - 1, t)) == 0)
  {
    assert Legal(items, i, t);
    NextInRange(ValueAt(items, i - 1, t), t);
  }

  /** Two inferred names in one signed bit get 0 and -1, and no error. */
  lemma OneSignedBitWraps(items: seq<Item>, t: EnumType)
    requires items == [Item(0, None), Item(1, None)] && t == EnumType(1, true, t.twoState)
    ensures LegalUpTo(items, |items|, t)
    ensures IntOf(ValueAt(items, 0, t)) == 0 && IntOf(ValueAt(items, 1, t)) == -1
  {
    OneIsOne(t);
    ExactWhenInRange(0, 1, true);
    var a := Start(t);
    assert IntOf(a) == 0 && MaxInt(t) == 2;
    OneBitNext(a, t);
    assert ValueAt(items, 0, t) == a && ValueAt(items, 1, t) == Next(a, t);
  }

  /** An explicit value of another width keeps its integer when no error is counted. */
  lemma ExplicitKeepsInteger(items: seq<Item>, t: EnumType, i: nat)
    requires WellItems(items) && t.w > 0 && LegalUpTo(items, |items|, t) && i < |items|
    requires items[i].given.Some? && items[i].given.value.Constant?
    requires var v := items[i].given.value.v; Defined(v.bits) && |v.bits| != t.w
    ensures IntOf(ValueAt(items, i, t)) == IntOf(items[i].given.value.v)
  {
    assert Legal(items, i, t) && WellItem(items[i]);
    FittedKeepsInteger(items[i].given.value.v, items[i].given.value.ownLen, t);
  }
}
