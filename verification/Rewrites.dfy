/** The one-for-one rewrites of constant propagation (qflow-org/iverilog/cprop.cc:81-194,
    349-425): a concatenation of constants becomes a constant, a mux with a constant select
    becomes a buffer, a constant that is all z or dangles goes away. Each keeps the consistent
    values, the last as far as anybody looks. */
module Rewrites {
  import opened FourState
  import opened Netlist

  // ----- replacing one driver by another -----

  ghost predicate Elsewhere(net: Net, out: nat, val: Val, w: World) {
    forall x: nat :: x < |net.nexus| && x != out ==> Settled(net, x, val, w)
  }

  /** The new node puts the same bits on its nexus as node k whenever the rest has settled. */
  ghost predicate StandsIn(net: Net, k: nat, n: Node)
    requires k < |net.nodes| && !net.nodes[k].Gone?
  {
    !n.Gone? && n.out == net.nodes[k].out
    && forall val: Val, w: World, i: nat :: Elsewhere(net, n.out, val, w) ==>
       OutBit(n, i, val, w) == OutBit(net.nodes[k], i, val, w)
  }

  function Replaced(net: Net, k: nat, n: Node): Net
    requires k < |net.nodes|
  {
    Net(net.nodes[k := Gone] + [n], net.nexus)
  }

  lemma ReplacedDrive(net: Net, k: nat, n: Node, x: nat, i: nat, val: Val, w: World)
    requires k < |net.nodes|
    requires Put(n, x, i, val, w) == Put(net.nodes[k], x, i, val, w)
    ensures DriveBit(Replaced(net, k, n).nodes, x, i, val, w) == DriveBit(net.nodes, x, i, val, w)
  {
    DriveAppend(net.nodes[k := Gone], [n], x, i, val, w);
    DriveOne(n, x, i, val, w);
    DriveWithout(net.nodes, k, x, i, val, w);
  }

  lemma ReplacedSettles(net: Net, k: nat, n: Node, x: nat, val: Val, w: World)
    requires k < |net.nodes| && x < |net.nexus|
    requires forall i: nat :: Put(n, x, i, val, w) == Put(net.nodes[k], x, i, val, w)
    ensures Settled(net, x, val, w) <==> Settled(Replaced(net, k, n), x, val, w)
  {
    forall i: nat
      ensures NexusBit(net, x, i, val, w) == NexusBit(Replaced(net, k, n), x, i, val, w)
    {
      ReplacedDrive(net, k, n, x, i, val, w);
    }
  }

  lemma StandInEquivalent(net: Net, k: nat, n: Node)
    requires k < |net.nodes| && !net.nodes[k].Gone? && StandsIn(net, k, n)
    ensures Equivalent(net, Replaced(net, k, n))
  {
    var b := Replaced(net, k, n);
    forall val: Val, w: World
      ensures SameValuations(net, b, val, w)
    {
      forall x: nat | x < |net.nexus| && x != n.out
        ensures Settled(net, x, val, w) <==> Settled(b, x, val, w)
      {
        ReplacedSettles(net, k, n, x, val, w);
      }
      if Elsewhere(net, n.out, val, w) && n.out < |net.nexus| {
        ReplacedSettles(net, k, n, n.out, val, w);
      }
    }
  }

  // ----- lpm_concat -----

  predicate ConcatReady(net: Net, k: nat) {
    && k < |net.nodes| && net.nodes[k].ConcatN? && !net.nodes[k].transparent
    && forall j :: 0 <= j < |net.nodes[k].ins| ==> ConstDriven(net, net.nodes[k].ins[j])
  }

  function DrivenVectors(net: Net, ins: seq<nat>): (vs: seq<Vec>)
    requires forall j :: 0 <= j < |ins| ==> ConstDriven(net, ins[j])
    ensures |vs| == |ins| && forall j :: 0 <= j < |ins| ==> vs[j] == DrivenVector(net, ins[j])
  {
    seq(|ins|, j requires 0 <= j < |ins| => DrivenVector(net, ins[j]))
  }

  function DrivenCat(net: Net, ins: seq<nat>): Vec
    requires forall j :: 0 <= j < |ins| ==> ConstDriven(net, ins[j])
  {
    Join(DrivenVectors(net, ins))
  }

  function ConcatFolded(net: Net, k: nat): Net
    requires ConcatReady(net, k)
  {
    Replaced(net, k, ConstN(net.nodes[k].out, DrivenCat(net, net.nodes[k].ins)))
  }

  lemma CatIsDriven(net: Net, ins: seq<nat>, out: nat, val: Val, w: World)
    requires WellNet(net) && Elsewhere(net, out, val, w)
    requires forall j :: 0 <= j < |ins| ==> ConstDriven(net, ins[j]) && !Leaky(net.nexus[ins[j]]) && ins[j] != out
    ensures CatLow(ins, val) == DrivenCat(net, ins)
  {
    forall j | 0 <= j < |ins|
      ensures val(ins[j]) == DrivenVector(net, ins[j])
    {
      ConstDrivenSettles(net, ins[j], val, w);
    }
    assert Values(ins, val) == DrivenVectors(net, ins);
  }

  /** A nexus that a mux or concatenation drives is not constant. */
  lemma NotItsOwnInput(net: Net, k: nat, x: nat)
    requires k < |net.nodes| && ConstDriven(net, x) && !net.nodes[k].ConstN?
    ensures !Drives(net.nodes[k], x)
  {
    if Drives(net.nodes[k], x) {
      DriversComplete(net.nodes, x, k);
    }
  }

  lemma ConcatEquivalent(net: Net, k: nat)
    requires WellNet(net) && ConcatReady(net, k)
    requires forall j :: 0 <= j < |net.nodes[k].ins| ==> !Leaky(net.nexus[net.nodes[k].ins[j]])
    ensures Equivalent(net, ConcatFolded(net, k))
  {
    var c := net.nodes[k];
    var n := ConstN(c.out, DrivenCat(net, c.ins));
    forall j | 0 <= j < |c.ins|
      ensures ConstDriven(net, c.ins[j]) && c.ins[j] != c.out
    {
      NotItsOwnInput(net, k, c.ins[j]);
    }
    forall val: Val, w: World, i: nat | Elsewhere(net, n.out, val, w)
      ensures OutBit(n, i, val, w) == OutBit(c, i, val, w)
    {
      CatIsDriven(net, c.ins, c.out, val, w);
    }
    StandInEquivalent(net, k, n);
  }

  /** Vectors of their nexuses' widths join to the width of the concatenation. */
  lemma {:induction false} JoinWidth(vs: seq<Vec>, ins: seq<nat>, nexus: seq<NexusInfo>)
    requires |vs| == |ins| && InRange(ins, |nexus|)
    requires forall j :: 0 <= j < |ins| ==> |vs[j]| == nexus[ins[j]].wid
    ensures |Join(vs)| == InsWidth(ins, nexus)
  {
    if ins != [] {
      JoinWidth(vs[1..], ins[1..], nexus);
    }
  }

  lemma DrivenCatWidth(net: Net, ins: seq<nat>)
    requires WellNet(net) && forall j :: 0 <= j < |ins| ==> ConstDriven(net, ins[j])
    ensures InRange(ins, |net.nexus|) && |DrivenCat(net, ins)| == InsWidth(ins, net.nexus)
  {
    forall j | 0 <= j < |ins|
      ensures ins[j] < |net.nexus| && |DrivenVector(net, ins[j])| == net.nexus[ins[j]].wid
    {
      DrivenWidth(net, ins[j]);
    }
    JoinWidth(DrivenVectors(net, ins), ins, net.nexus);
  }

  // ----- lpm_mux -----

  predicate MuxReady(net: Net, k: nat) {
    && k < |net.nodes| && Binary(net.nodes[k]) && ConstDriven(net, net.nodes[k].sel)
    && Known(At(DrivenVector(net, net.nodes[k].sel), 0, VZ))
  }

  function MuxFolded(net: Net, k: nat): Net
    requires MuxReady(net, k)
  {
    var m := net.nodes[k];
    Replaced(net, k, BufZ(m.out, m.data[BitVal(DrivenVector(net, m.sel)[0])]))
  }

  lemma MuxEquivalent(net: Net, k: nat)
    requires WellNet(net) && MuxReady(net, k) && !Leaky(net.nexus[net.nodes[k].sel])
    ensures Equivalent(net, MuxFolded(net, k))
  {
    var m := net.nodes[k];
    var n := BufZ(m.out, m.data[BitVal(DrivenVector(net, m.sel)[0])]);
    NotItsOwnInput(net, k, m.sel);
    forall val: Val, w: World, i: nat | Elsewhere(net, n.out, val, w)
      ensures OutBit(n, i, val, w) == OutBit(m, i, val, w)
    {
      ConstDrivenSettles(net, m.sel, val, w);
    }
    StandInEquivalent(net, k, n);
  }

  // ----- all-z constants -----

  predicate Floating(n: Node) {
    n.ConstN? && forall i :: 0 <= i < |n.bits| ==> n.bits[i] == VZ
  }

  function Dropped(net: Net, k: nat): Net
    requires k < |net.nodes|
  {
    Net(net.nodes[k := Gone], net.nexus)
  }

  /** High impedance drives nothing: an all-z constant can go, on any net and beside any drivers. */
  lemma FloatingEquivalent(net: Net, k: nat)
    requires k < |net.nodes| && Floating(net.nodes[k])
    ensures Equivalent(net, Dropped(net, k))
  {
    var b := Dropped(net, k);
    forall val: Val, w: World
      ensures SameValuations(net, b, val, w)
    {
      forall x: nat | x < |net.nexus|
        ensures Settled(net, x, val, w) <==> Settled(b, x, val, w)
      {
        forall i: nat
          ensures NexusBit(net, x, i, val, w) == NexusBit(b, x, i, val, w)
        {
          DriveWithout(net.nodes, k, x, i, val, w);
        }
      }
    }
  }

  /** Without its only driver a plain nexus floats. */
  lemma DroppedFloats(net: Net, k: nat, i: nat, u: Val, w: World)
    requires k < |net.nodes| && net.nodes[k].ConstN?
    requires var x := net.nodes[k].out; ConstDriven(net, x) && net.nexus[x].pull == Wire
    ensures NexusBit(Dropped(net, k), net.nodes[k].out, i, u, w) == VZ
    ensures DrivenVector(net, net.nodes[k].out) == net.nodes[k].bits
  {
    var x := net.nodes[k].out;
    DriversComplete(net.nodes, x, k);
    forall j: nat | j < |net.nodes|
      ensures Put(Dropped(net, k).nodes[j], x, i, u, w) == VZ
    {
      if Drives(Dropped(net, k).nodes[j], x) {
        DriversComplete(net.nodes, x, j);
      }
    }
    DriveNothing(Dropped(net, k).nodes, x, i, u, w);
  }

  /** One bit that is not z is enough to make the deletion visible on a wire without other drivers. */
  lemma OnlyFloatingMayGo(net: Net, k: nat, i: nat, val: Val, w: World)
    requires WellNet(net) && k < |net.nodes| && net.nodes[k].ConstN? && i < |net.nodes[k].bits|
    requires net.nodes[k].bits[i] != VZ
    requires var x := net.nodes[k].out; ConstDriven(net, x) && net.nexus[x].pull == Wire
    requires Consistent(net, val, w)
    ensures !Consistent(Dropped(net, k), val, w)
  {
    var x := net.nodes[k].out;
    DroppedFloats(net, k, i, val, w);
    ConstDrivenSettles(net, x, val, w);
    assert WellNode(net.nodes[k], net.nexus);
    assert !Settled(Dropped(net, k), x, val, w);
  }

  // ----- dangling constants -----

  predicate Reads(n: Node, x: nat) {
    match n
    case Gone => false
    case ConstN(_, _) => false
    case ConcatN(_, ins, _) => x in ins
    case MuxN(_, sel, _, data) => x == sel || x in data
    case PartPV(_, input, _, _) => x == input
    case BufZ(_, input) => x == input
    case Other(_, ins, _) => x in ins
  }

  predicate Unread(nodes: seq<Node>, x: nat) {
    forall k :: 0 <= k < |nodes| ==> !Reads(nodes[k], x)
  }

  /** No node reads the nexus of the constant, and nobody looks at its signals. */
  predicate Dangling(net: Net, k: nat) {
    && k < |net.nodes| && net.nodes[k].ConstN? && net.nodes[k].out < |net.nexus|
    && !net.nexus[net.nodes[k].out].seen && Unread(net.nodes, net.nodes[k].out)
  }

  predicate Observed(net: Net, x: nat) {
    x < |net.nexus| && (net.nexus[x].seen || !Unread(net.nodes, x))
  }

  ghost predicate AgreeObserved(net: Net, u: Val, v: Val) {
    forall x: nat :: Observed(net, x) ==> u(x) == v(x)
  }

  /** Whatever a can settle to, b can too, as far as anybody looks. */
  ghost predicate Shows(a: Net, b: Net) {
    forall val: Val, w: World :: Consistent(a, val, w) ==>
      exists u: Val :: AgreeObserved(a, u, val) && Consistent(b, u, w)
  }

  ghost predicate SameObserved(a: Net, b: Net) {
    && a.nexus == b.nexus && (forall x: nat :: Unread(a.nodes, x) <==> Unread(b.nodes, x))
    && Shows(a, b) && Shows(b, a)
  }

  ghost predicate ShownAlike(a: Net, b: Net, u: Val, val: Val) {
    forall x: nat :: x < |a.nexus| && Observed(b, x) ==> u(x) == val(x)
  }

  /** b keeps a's nexuses, and the values of those that b still shows to somebody. */
  ghost predicate KeepsObserved(a: Net, b: Net) {
    && Grows(a, b)
    && (forall val: Val, w: World :: Consistent(a, val, w) ==>
         exists u: Val :: ShownAlike(a, b, u, val) && Consistent(b, u, w))
    && (forall u: Val, w: World :: Consistent(b, u, w) ==>
         exists val: Val :: ShownAlike(a, b, u, val) && Consistent(a, val, w))
  }

  lemma UnreadOut(n: Node, x: nat, i: nat, u: Val, v: Val, w: World)
    requires !Reads(n, x) && forall y: nat :: y != x ==> u(y) == v(y)
    ensures OutBit(n, i, u, w) == OutBit(n, i, v, w)
  {
    match n
    case ConcatN(_, ins, _) => assert Values(ins, u) == Values(ins, v);
    case MuxN(_, _, _, data) => assert Values(data, u) == Values(data, v);
    case Other(_, ins, _) => assert Values(ins, u) == Values(ins, v);
    case _ =>
  }

  lemma {:induction false} UnreadDrive(nodes: seq<Node>, x: nat, y: nat, i: nat, u: Val, v: Val, w: World)
    requires Unread(nodes, x) && forall z: nat :: z != x ==> u(z) == v(z)
    ensures DriveBit(nodes, y, i, u, w) == DriveBit(nodes, y, i, v, w)
    decreases |nodes|
  {
    if |nodes| > 0 {
      var m := |nodes| - 1;
      assert forall k :: 0 <= k < m ==> nodes[..m][k] == nodes[k];
      UnreadDrive(nodes[..m], x, y, i, u, v, w);
      UnreadOut(nodes[m], x, i, u, v, w);
    }
  }

  /** A nexus that nobody reads takes the value of its drivers, and the rest may stay. */
  function Retaken(t: Net, x: nat, val: Val, w: World): Val
    requires x < |t.nexus|
  {
    (y: nat) => if y == x then seq(t.nexus[x].wid, i requires 0 <= i => NexusBit(t, x, i, val, w)) else val(y)
  }

  lemma RetakenConsistent(s: Net, t: Net, x: nat, val: Val, w: World)
    requires s.nexus == t.nexus && x < |t.nexus| && Unread(t.nodes, x) && Consistent(s, val, w)
    requires forall y: nat, i: nat :: y != x ==> DriveBit(t.nodes, y, i, val, w) == DriveBit(s.nodes, y, i, val, w)
    ensures Consistent(t, Retaken(t, x, val, w), w)
  {
    var u := Retaken(t, x, val, w);
    forall y: nat | y < |t.nexus|
      ensures Settled(t, y, u, w)
    {
      assert Settled(s, y, val, w);
      forall i: nat | i < |u(y)|
        ensures u(y)[i] == NexusBit(t, y, i, u, w)
      {
        UnreadDrive(t.nodes, x, y, i, u, val, w);
      }
    }
  }

  lemma DroppedReads(net: Net, k: nat)
    requires k < |net.nodes| && net.nodes[k].ConstN?
    ensures forall x: nat :: Unread(net.nodes, x) <==> Unread(Dropped(net, k).nodes, x)
  {
    var b := Dropped(net, k).nodes;
    forall x: nat
      ensures Unread(net.nodes, x) <==> Unread(b, x)
    {
      assert forall j :: 0 <= j < |b| ==> Reads(b[j], x) == Reads(net.nodes[j], x);
    }
  }

  lemma DriveElsewhere(net: Net, k: nat, val: Val, w: World)
    requires k < |net.nodes| && net.nodes[k].ConstN?
    ensures forall y: nat, i: nat :: y != net.nodes[k].out ==>
              DriveBit(net.nodes, y, i, val, w) == DriveBit(Dropped(net, k).nodes, y, i, val, w)
  {
    forall y: nat, i: nat | y != net.nodes[k].out
      ensures DriveBit(net.nodes, y, i, val, w) == DriveBit(Dropped(net, k).nodes, y, i, val, w)
    {
      DriveWithout(net.nodes, k, y, i, val, w);
    }
  }

  /** A dangling constant can go: only its own nexus changes, which nobody looks at. */
  lemma DanglingMayGo(net: Net, k: nat)
    requires Dangling(net, k)
    ensures SameObserved(net, Dropped(net, k))
  {
    var b := Dropped(net, k);
    var x := net.nodes[k].out;
    DroppedReads(net, k);
    forall val: Val, w: World | Consistent(net, val, w)
      ensures exists u: Val :: AgreeObserved(net, u, val) && Consistent(b, u, w)
    {
      DriveElsewhere(net, k, val, w);
      RetakenConsistent(net, b, x, val, w);
      assert AgreeObserved(net, Retaken(b, x, val, w), val);
    }
    forall val: Val, w: World | Consistent(b, val, w)
      ensures exists u: Val :: AgreeObserved(b, u, val) && Consistent(net, u, w)
    {
      DriveElsewhere(net, k, val, w);
      RetakenConsistent(b, net, x, val, w);
      assert AgreeObserved(b, Retaken(net, x, val, w), val);
    }
  }

  lemma FloatingSameObserved(net: Net, k: nat)
    requires k < |net.nodes| && Floating(net.nodes[k])
    ensures SameObserved(net, Dropped(net, k))
  {
    var b := Dropped(net, k);
    FloatingEquivalent(net, k);
    DroppedReads(net, k);
    forall val: Val, w: World
      ensures Consistent(net, val, w) <==> Consistent(b, val, w)
    {
      assert SameValuations(net, b, val, w);
    }
    assert forall val: Val :: AgreeObserved(net, val, val) && AgreeObserved(b, val, val);
  }

  lemma SameObservedRefl(a: Net)
    ensures SameObserved(a, a)
  {
    assert forall val: Val :: AgreeObserved(a, val, val);
  }

  lemma ShowsTrans(a: Net, b: Net, c: Net)
    requires Shows(a, b) && Shows(b, c) && forall x: nat :: Observed(a, x) ==> Observed(b, x)
    ensures Shows(a, c)
  {
    forall val: Val, w: World | Consistent(a, val, w)
      ensures exists u: Val :: AgreeObserved(a, u, val) && Consistent(c, u, w)
    {
      var m: Val :| AgreeObserved(a, m, val) && Consistent(b, m, w);
      var u: Val :| AgreeObserved(b, u, m) && Consistent(c, u, w);
      assert AgreeObserved(a, u, val);
    }
  }

  lemma SameObservedTrans(a: Net, b: Net, c: Net)
    requires SameObserved(a, b) && SameObserved(b, c)
    ensures SameObserved(a, c)
  {
    ShowsTrans(a, b, c);
    ShowsTrans(c, b, a);
  }

  lemma SameLooks(a: Net, b: Net)
    requires SameObserved(a, b)
    ensures forall x: nat :: Observed(a, x) <==> Observed(b, x)
  {
    hide Shows;
  }

  lemma ShownForth(a: Net, m: Net, b: Net, val: Val, w: World)
    requires WellNet(a) && Equivalent(a, m) && SameObserved(m, b) && Consistent(a, val, w)
    ensures exists u: Val :: ShownAlike(a, b, u, val) && Consistent(b, u, w)
  {
    hide WellNet, Consistent, Observed, Unread;
    SameLooks(m, b);
    SurvivorsKeepTheirValues(a, m, val, w);
    var v: Val :| Agree(|a.nexus|, v, val) && Consistent(m, v, w);
    var u: Val :| AgreeObserved(m, u, v) && Consistent(b, u, w);
    assert ShownAlike(a, b, u, val);
  }

  lemma ShownBack(a: Net, m: Net, b: Net, u: Val, w: World)
    requires Equivalent(a, m) && SameObserved(m, b) && Consistent(b, u, w)
    ensures exists val: Val :: ShownAlike(a, b, u, val) && Consistent(a, val, w)
  {
    hide WellNet, Consistent, Observed, Unread;
    var v: Val :| AgreeObserved(b, v, u) && Consistent(m, v, w);
    assert SameValuations(a, m, v, w);
    assert ShownAlike(a, b, u, v);
  }

  /** An equivalent netlist whose dangling constants then go. */
  lemma ObservedAfter(a: Net, m: Net, b: Net)
    requires WellNet(a) && Equivalent(a, m) && SameObserved(m, b)
    ensures KeepsObserved(a, b)
  {
    hide WellNet, Consistent, ShownAlike, SameValuations, Shows, Unread;
    forall val: Val, w: World | Consistent(a, val, w)
      ensures exists u: Val :: ShownAlike(a, b, u, val) && Consistent(b, u, w)
    {
      ShownForth(a, m, b, val, w);
    }
    forall u: Val, w: World | Consistent(b, u, w)
      ensures exists val: Val :: ShownAlike(a, b, u, val) && Consistent(a, val, w)
    {
      ShownBack(a, m, b, u, w);
    }
  }
}
