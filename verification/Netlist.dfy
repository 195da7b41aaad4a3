/** Netlists with a relational meaning: which values of the nexuses are consistent with every
    node's equation and with the resolution of each nexus's drivers (section 4.6.1 of IEEE
    1364-2005 for wire nets). */
module Netlist {
  import opened FourState

  /** Deleted nodes leave a gap, so node numbers stay what they are. */
  datatype Node =
    | Gone
    | ConstN(out: nat, bits: Vec)
    | ConcatN(out: nat, ins: seq<nat>, transparent: bool)
    | MuxN(out: nat, sel: nat, selWidth: nat, data: seq<nat>)
    | PartPV(out: nat, input: nat, base: nat, wid: nat)
    | BufZ(out: nat, input: nat)
    | Other(out: nat, ins: seq<nat>, fn: nat)

  /** The net types that drive a nexus by themselves; anything else is a plain wire here. */
  datatype Pull = Wire | Tri0 | Tri1 | Supply0 | Supply1

  /** Who else may drive a nexus: nobody, the far side of a tran, the world outside an input
      or inout port of a root module, or procedural code through a variable. */
  datatype Outside = Nobody | TranLink | RootPort | Variable

  /** `seen`: some signal on the nexus is named in the source, is read by an expression, or is a
      port of a root module. */
  datatype NexusInfo = NexusInfo(wid: nat, pull: Pull, outside: Outside, seen: bool)

  datatype Net = Net(nodes: seq<Node>, nexus: seq<NexusInfo>)
  type Val = nat -> Vec

  /** What is not part of the netlist: outside drivers, and the functions of other nodes. */
  datatype World = World(ext: nat -> Vec, sem: (nat, seq<Vec>) -> Vec, mux: seq<Vec> -> Vec)

  // ----- resolution -----

  function Resolve(a: Bit, b: Bit): Bit {
    if a == VZ then b
    else if b == VZ then a
    else if a == b then a
    else VX
  }

  lemma ResolveMonoid(a: Bit, b: Bit, c: Bit)
    ensures Resolve(a, b) == Resolve(b, a)
    ensures Resolve(Resolve(a, b), c) == Resolve(a, Resolve(b, c))
    ensures Resolve(a, VZ) == a == Resolve(VZ, a)
  {
  }

  function Settle(pull: Pull, b: Bit): Bit {
    match pull
    case Wire => b
    case Tri0 => if b == VZ then V0 else b
    case Tri1 => if b == VZ then V1 else b
    case Supply0 => V0
    case Supply1 => V1
  }

  // ----- node equations -----

  function Values(ins: seq<nat>, val: Val): (vs: seq<Vec>)
    ensures |vs| == |ins|
  {
    seq(|ins|, i requires 0 <= i < |ins| => val(ins[i]))
  }

  /** First vector least significant. */
  function Join(vs: seq<Vec>): Vec {
    if vs == [] then [] else vs[0] + Join(vs[1..])
  }

  function CatLow(ins: seq<nat>, val: Val): Vec {
    Join(Values(ins, val))
  }

  lemma CatLowStep(x: nat, ins: seq<nat>, val: Val)
    ensures CatLow([x] + ins, val) == val(x) + CatLow(ins, val)
  {
    assert Values([x] + ins, val)[1..] == Values(ins, val);
  }

  lemma {:induction false} JoinSnoc(vs: seq<Vec>, v: Vec)
    ensures Join(vs + [v]) == Join(vs) + v
  {
    if vs == [] {
      assert [v][1..] == [] && [] + [v] == [v];
    } else {
      assert (vs + [v])[1..] == vs[1..] + [v];
      JoinSnoc(vs[1..], v);
    }
  }

  predicate Binary(n: Node) {
    n.MuxN? && |n.data| == 2 && n.selWidth == 1
  }

  /** The bit that a node puts on position i of its output nexus. */
  function OutBit(n: Node, i: nat, val: Val, w: World): Bit {
    match n
    case Gone => VZ
    case ConstN(_, bits) => At(bits, i, VZ)
    case ConcatN(_, ins, _) => At(CatLow(ins, val), i, VZ)
    case MuxN(_, sel, _, data) =>
      var s := At(val(sel), 0, VZ);
      if Binary(n) && Known(s) then At(val(data[BitVal(s)]), i, VZ)
      else At(w.mux([val(sel)] + Values(data, val)), i, VZ)
    case PartPV(_, input, base, wid) => if base <= i < base + wid then At(val(input), i - base, VZ) else VZ
    case BufZ(_, input) => At(val(input), i, VZ)
    case Other(_, ins, fn) => At(w.sem(fn, Values(ins, val)), i, VZ)
  }

  // ----- what the equations say -----

  lemma {:induction false} JoinSplit(a: seq<Vec>, b: seq<Vec>)
    ensures Join(a + b) == Join(a) + Join(b)
  {
    if a == [] {
      assert a + b == b;
    } else {
      assert (a + b)[1..] == a[1..] + b;
      JoinSplit(a[1..], b);
    }
  }

  /** Bit k of an input of a concatenation is above all bits of the inputs before it. */
  lemma JoinMeaning(n: Node, j: nat, k: nat, val: Val, w: World)
    requires n.ConcatN? && j < |n.ins| && k < |val(n.ins[j])|
    ensures OutBit(n, |CatLow(n.ins[..j], val)| + k, val, w) == val(n.ins[j])[k]
  {
    var vs := Values(n.ins, val);
    assert vs == vs[..j] + vs[j..];
    JoinSplit(vs[..j], vs[j..]);
    assert Values(n.ins[..j], val) == vs[..j];
    assert Join(vs[j..]) == vs[j] + Join(vs[j..][1..]);
  }

  /** A select of 0 passes the first data input, and of 1 the second. */
  lemma MuxMeaning(n: Node, i: nat, val: Val, w: World)
    requires n.MuxN? && |n.data| == 2 && n.selWidth == 1 && |val(n.data[0])| > i && |val(n.data[1])| > i
    ensures val(n.sel) == [V0] ==> OutBit(n, i, val, w) == val(n.data[0])[i]
    ensures val(n.sel) == [V1] ==> OutBit(n, i, val, w) == val(n.data[1])[i]
  {
  }

  /** A part select puts its input at its base, and z everywhere else. */
  lemma PartMeaning(n: Node, i: nat, val: Val, w: World)
    requires n.PartPV? && |val(n.input)| == n.wid
    ensures n.base <= i < n.base + n.wid ==> OutBit(n, i, val, w) == val(n.input)[i - n.base]
    ensures i < n.base || n.base + n.wid <= i ==> OutBit(n, i, val, w) == VZ
  {
  }

  predicate Drives(n: Node, x: nat) {
    !n.Gone? && n.out == x
  }

  function Put(n: Node, x: nat, i: nat, val: Val, w: World): Bit {
    if Drives(n, x) then OutBit(n, i, val, w) else VZ
  }

  function DriveBit(nodes: seq<Node>, x: nat, i: nat, val: Val, w: World): Bit {
    if |nodes| == 0 then VZ
    else
      var k := |nodes| - 1;
      Resolve(DriveBit(nodes[..k], x, i, val, w), Put(nodes[k], x, i, val, w))
  }

  function NexusBit(net: Net, x: nat, i: nat, val: Val, w: World): Bit
    requires x < |net.nexus|
  {
    var outside := if net.nexus[x].outside == Nobody then VZ else At(w.ext(x), i, VZ);
    Settle(net.nexus[x].pull, Resolve(outside, DriveBit(net.nodes, x, i, val, w)))
  }

  ghost predicate Settled(net: Net, x: nat, val: Val, w: World)
    requires x < |net.nexus|
  {
    |val(x)| == net.nexus[x].wid && forall i: nat :: i < |val(x)| ==> val(x)[i] == NexusBit(net, x, i, val, w)
  }

  ghost predicate Consistent(net: Net, val: Val, w: World) {
    forall x: nat :: x < |net.nexus| ==> Settled(net, x, val, w)
  }

  // ----- well-formed netlists -----

  predicate InRange(ins: seq<nat>, n: nat) {
    forall j :: 0 <= j < |ins| ==> ins[j] < n
  }

  function InsWidth(ins: seq<nat>, nexus: seq<NexusInfo>): nat
    requires InRange(ins, |nexus|)
  {
    if ins == [] then 0 else nexus[ins[0]].wid + InsWidth(ins[1..], nexus)
  }

  predicate WellNode(n: Node, nexus: seq<NexusInfo>) {
    match n
    case Gone => true
    case ConstN(out, bits) => out < |nexus| && |bits| == nexus[out].wid
    case ConcatN(out, ins, _) => out < |nexus| && InRange(ins, |nexus|) && InsWidth(ins, nexus) == nexus[out].wid
    case MuxN(out, sel, sw, data) => out < |nexus| && sel < |nexus| && InRange(data, |nexus|)
        && nexus[sel].wid == sw > 0
    case PartPV(out, input, _, wid) => out < |nexus| && input < |nexus| && nexus[input].wid == wid > 0
    case BufZ(out, input) => out < |nexus| && input < |nexus|
    case Other(out, ins, _) => out < |nexus| && InRange(ins, |nexus|)
  }

  predicate WellNet(net: Net) {
    forall k :: 0 <= k < |net.nodes| ==> WellNode(net.nodes[k], net.nexus)
  }

  lemma {:induction false} InsWidthGrows(ins: seq<nat>, nexus: seq<NexusInfo>, more: seq<NexusInfo>)
    requires InRange(ins, |nexus|)
    ensures InRange(ins, |nexus + more|) && InsWidth(ins, nexus + more) == InsWidth(ins, nexus)
  {
    if ins != [] {
      InsWidthGrows(ins[1..], nexus, more);
    }
  }

  /** More nexuses do not disturb a node. */
  lemma WellNodeGrows(n: Node, nexus: seq<NexusInfo>, more: seq<NexusInfo>)
    requires WellNode(n, nexus)
    ensures WellNode(n, nexus + more)
  {
    if n.ConcatN? {
      InsWidthGrows(n.ins, nexus, more);
    }
  }

  // ----- drivers -----

  /** The nodes that drive x, in order. */
  function Drivers(nodes: seq<Node>, x: nat): (d: seq<nat>)
    ensures forall j :: 0 <= j < |d| ==> d[j] < |nodes| && Drives(nodes[d[j]], x)
    ensures forall j, k :: 0 <= j < k < |d| ==> d[j] < d[k]
  {
    if |nodes| == 0 then []
    else
      var k := |nodes| - 1;
      Drivers(nodes[..k], x) + (if Drives(nodes[k], x) then [k] else [])
  }

  lemma {:induction false} DriversComplete(nodes: seq<Node>, x: nat, k: nat)
    requires k < |nodes| && Drives(nodes[k], x)
    ensures k in Drivers(nodes, x)
    decreases |nodes|
  {
    var m := |nodes| - 1;
    if k < m {
      DriversComplete(nodes[..m], x, k);
    }
  }

  lemma {:induction false} DriveNothing(nodes: seq<Node>, x: nat, i: nat, val: Val, w: World)
    requires forall j: nat :: j < |nodes| ==> Put(nodes[j], x, i, val, w) == VZ
    ensures DriveBit(nodes, x, i, val, w) == VZ
    decreases |nodes|
  {
    if |nodes| > 0 {
      var m := |nodes| - 1;
      assert forall j: nat :: j < m ==> nodes[..m][j] == nodes[j];
      DriveNothing(nodes[..m], x, i, val, w);
    }
  }

  /** If every driver of x but node k puts z on position i, the position has node k's bit. */
  lemma {:induction false} DriveAlone(nodes: seq<Node>, k: nat, x: nat, i: nat, val: Val, w: World)
    requires k < |nodes| && Drives(nodes[k], x)
    requires forall j: nat :: j < |nodes| && j != k ==> Put(nodes[j], x, i, val, w) == VZ
    ensures DriveBit(nodes, x, i, val, w) == OutBit(nodes[k], i, val, w)
    decreases |nodes|
  {
    var m := |nodes| - 1;
    assert forall j: nat :: j < m ==> nodes[..m][j] == nodes[j];
    if k < m {
      DriveAlone(nodes[..m], k, x, i, val, w);
    } else {
      DriveNothing(nodes[..m], x, i, val, w);
    }
  }

  /** Taking node k out leaves the resolution of the others. */
  lemma {:induction false} DriveWithout(nodes: seq<Node>, k: nat, x: nat, i: nat, val: Val, w: World)
    requires k < |nodes|
    ensures DriveBit(nodes, x, i, val, w)
            == Resolve(DriveBit(nodes[k := Gone], x, i, val, w), Put(nodes[k], x, i, val, w))
    decreases |nodes|
  {
    var m := |nodes| - 1;
    if k < m {
      DriveWithout(nodes[..m], k, x, i, val, w);
      assert nodes[k := Gone][..m] == nodes[..m][k := Gone];
      var rest := DriveBit(nodes[..m][k := Gone], x, i, val, w);
      ResolveMonoid(rest, Put(nodes[k], x, i, val, w), Put(nodes[m], x, i, val, w));
      ResolveMonoid(Put(nodes[k], x, i, val, w), Put(nodes[m], x, i, val, w), VZ);
      ResolveMonoid(rest, Put(nodes[m], x, i, val, w), Put(nodes[k], x, i, val, w));
    } else {
      assert nodes[k := Gone][..m] == nodes[..m];
    }
  }

  lemma {:induction false} DriveAppend(a: seq<Node>, b: seq<Node>, x: nat, i: nat, val: Val, w: World)
    ensures DriveBit(a + b, x, i, val, w) == Resolve(DriveBit(a, x, i, val, w), DriveBit(b, x, i, val, w))
    decreases |b|
  {
    if |b| == 0 {
      assert a + b == a;
    } else {
      var m := |b| - 1;
      DriveAppend(a, b[..m], x, i, val, w);
      assert (a + b)[..|a + b| - 1] == a + b[..m];
      ResolveMonoid(DriveBit(a, x, i, val, w), DriveBit(b[..m], x, i, val, w), Put(b[m], x, i, val, w));
    }
  }

  lemma DriveOne(n: Node, x: nat, i: nat, val: Val, w: World)
    ensures DriveBit([n], x, i, val, w) == Put(n, x, i, val, w)
  {
    assert [n][..0] == [];
  }

  /** A bit is z when every driver puts z there, and 0 or 1 when some driver puts that and every
      other that or z. Any conflict makes it x. */
  lemma {:induction false} DriveMeaning(nodes: seq<Node>, x: nat, i: nat, val: Val, w: World, b: Bit)
    requires b != VX
    ensures DriveBit(nodes, x, i, val, w) == b
            <==> && (forall j: nat :: j < |nodes| ==> Put(nodes[j], x, i, val, w) in {b, VZ})
                 && (b != VZ ==> exists j: nat :: j < |nodes| && Put(nodes[j], x, i, val, w) == b)
    decreases |nodes|
  {
    if |nodes| > 0 {
      var m := |nodes| - 1;
      assert forall j: nat :: j < m ==> nodes[..m][j] == nodes[j];
      DriveMeaning(nodes[..m], x, i, val, w, b);
      DriveMeaning(nodes[..m], x, i, val, w, VZ);
    }
  }

  // ----- constant nexuses -----

  /** drivers_constant: nothing but constants, and at most one of them, counting a pull. The
      port test is made on plain nets only, so a pull hides a root port. */
  predicate ConstDriven(net: Net, x: nat) {
    && x < |net.nexus|
    && var n := net.nexus[x];
       && (n.outside == Nobody || (n.outside == RootPort && n.pull != Wire))
       && var d := Drivers(net.nodes, x);
          (|d| == 0 || (|d| == 1 && n.pull == Wire && net.nodes[d[0]].ConstN?))
  }

  /** driven_vector of a nexus with constant drivers. */
  function DrivenVector(net: Net, x: nat): Vec
    requires ConstDriven(net, x)
  {
    var d := Drivers(net.nodes, x);
    if |d| == 1 then net.nodes[d[0]].bits
    else Fill(Settle(net.nexus[x].pull, VZ), net.nexus[x].wid)
  }

  /** A port of a root module whose pull the outside can override. */
  predicate Leaky(n: NexusInfo) {
    n.outside == RootPort && (n.pull == Tri0 || n.pull == Tri1)
  }

  predicate Sealed(nexus: seq<NexusInfo>) {
    forall x :: 0 <= x < |nexus| ==> !Leaky(nexus[x])
  }

  ghost predicate SettlesAsDriven(net: Net, x: nat)
    requires ConstDriven(net, x)
  {
    forall val: Val, w: World :: Settled(net, x, val, w) <==> val(x) == DrivenVector(net, x)
  }

  lemma ConstDriveBit(net: Net, x: nat, i: nat, val: Val, w: World)
    requires ConstDriven(net, x)
    ensures var d := Drivers(net.nodes, x);
            DriveBit(net.nodes, x, i, val, w) == if |d| == 1 then OutBit(net.nodes[d[0]], i, val, w) else VZ
  {
    var d := Drivers(net.nodes, x);
    forall j: nat | j < |net.nodes| && Drives(net.nodes[j], x)
      ensures |d| == 1 && j == d[0]
    {
      DriversComplete(net.nodes, x, j);
    }
    if |d| == 1 {
      DriveAlone(net.nodes, d[0], x, i, val, w);
    } else {
      DriveNothing(net.nodes, x, i, val, w);
    }
  }

  lemma ConstNexusBit(net: Net, x: nat, i: nat, val: Val, w: World)
    requires ConstDriven(net, x) && !Leaky(net.nexus[x]) && i < |DrivenVector(net, x)|
    ensures NexusBit(net, x, i, val, w) == DrivenVector(net, x)[i]
  {
    ConstDriveBit(net, x, i, val, w);
  }

  lemma DrivenWidth(net: Net, x: nat)
    requires WellNet(net) && ConstDriven(net, x)
    ensures |DrivenVector(net, x)| == net.nexus[x].wid
  {
    var d := Drivers(net.nodes, x);
    assert |d| == 1 ==> WellNode(net.nodes[d[0]], net.nexus);
  }

  /** A nexus with constant drivers settles to its driven vector and to nothing else. */
  lemma ConstDrivenSettles(net: Net, x: nat, val: Val, w: World)
    requires WellNet(net) && ConstDriven(net, x) && !Leaky(net.nexus[x])
    ensures Settled(net, x, val, w) <==> val(x) == DrivenVector(net, x)
  {
    var v := DrivenVector(net, x);
    DrivenWidth(net, x);
    forall i: nat | i < |v|
      ensures NexusBit(net, x, i, val, w) == v[i]
    {
      ConstNexusBit(net, x, i, val, w);
    }
  }

  /** What a nexus that nothing drives settles to, by its net type. */
  lemma UndrivenMeaning(net: Net, x: nat, val: Val, w: World)
    requires WellNet(net) && x < |net.nexus| && net.nexus[x].outside == Nobody && Drivers(net.nodes, x) == []
    ensures var n := net.nexus[x];
            Settled(net, x, val, w)
            <==> val(x) == Fill(if n.pull == Wire then VZ else if n.pull in {Tri0, Supply0} then V0 else V1, n.wid)
  {
    ConstDrivenSettles(net, x, val, w);
  }

  /** drivers_constant is right about a nexus exactly when it is not a pulled root port. */
  lemma ConstDrivenExactness(net: Net, x: nat)
    requires WellNet(net) && ConstDriven(net, x) && net.nexus[x].wid > 0
    ensures SettlesAsDriven(net, x) <==> !Leaky(net.nexus[x])
  {
    if !Leaky(net.nexus[x]) {
      forall val: Val, w: World
        ensures Settled(net, x, val, w) <==> val(x) == DrivenVector(net, x)
      {
        ConstDrivenSettles(net, x, val, w);
      }
    } else {
      var v := Fill(if net.nexus[x].pull == Tri0 then V1 else V0, net.nexus[x].wid);
      var val: Val := _ => v;
      var w := World(_ => v, (_, _) => v, _ => v);
      forall i: nat | i < |v|
        ensures NexusBit(net, x, i, val, w) == v[i]
      {
        ConstDriveBit(net, x, i, val, w);
      }
      assert Settled(net, x, val, w);
      assert val(x)[0] != DrivenVector(net, x)[0];
    }
  }

  ghost predicate CanSettle(net: Net, x: nat, v: Vec)
    requires x < |net.nexus|
  {
    exists val: Val, w: World :: val(x) == v && Settled(net, x, val, w)
  }

  /** A plain port of a root module that nothing drives can be brought to any vector from outside. */
  lemma OpenPortSettles(net: Net, x: nat, v: Vec)
    requires x < |net.nexus| && net.nexus[x].outside == RootPort && net.nexus[x].pull == Wire
    requires Drivers(net.nodes, x) == [] && |v| == net.nexus[x].wid
    ensures CanSettle(net, x, v)
  {
    var val: Val := _ => v;
    var w := World(_ => v, (_, _) => v, _ => v);
    forall i: nat | i < |v|
      ensures v[i] == NexusBit(net, x, i, val, w)
    {
      forall j: nat | j < |net.nodes|
        ensures Put(net.nodes[j], x, i, val, w) == VZ
      {
        if Drives(net.nodes[j], x) {
          DriversComplete(net.nodes, x, j);
        }
      }
      DriveNothing(net.nodes, x, i, val, w);
    }
    assert val(x) == v && Settled(net, x, val, w);
  }

  /** A one-bit tri0 port of a root module: taken for a constant 0, though the outside may drive 1. */
  lemma PulledPortIsNotConstant(val: Val, w: World)
    requires val(0) == [V1] && w.ext(0) == [V1]
    ensures var net := Net([], [NexusInfo(1, Tri0, RootPort, true)]);
            WellNet(net) && ConstDriven(net, 0) && DrivenVector(net, 0) == [V0] && Consistent(net, val, w)
  {
    var net := Net([], [NexusInfo(1, Tri0, RootPort, true)]);
    assert Fill(V0, 1) == [V0];
    assert DriveBit(net.nodes, 0, 0, val, w) == VZ;
    assert Settled(net, 0, val, w);
  }

  // ----- equivalence -----

  ghost predicate Quiet(nexus: seq<NexusInfo>, from: nat, val: Val) {
    forall x: nat :: from <= x < |nexus| ==> val(x) == Fill(VZ, nexus[x].wid)
  }

  ghost predicate SameValuations(a: Net, b: Net, val: Val, w: World) {
    Consistent(b, val, w) <==> Consistent(a, val, w) && Quiet(b.nexus, |a.nexus|, val)
  }

  predicate Grows(a: Net, b: Net) {
    |a.nexus| <= |b.nexus| && b.nexus[..|a.nexus|] == a.nexus
  }

  /** b keeps a's nexuses and its consistent valuations; what b adds floats at z. */
  ghost predicate Equivalent(a: Net, b: Net) {
    Grows(a, b) && forall val: Val, w: World :: SameValuations(a, b, val, w)
  }

  lemma EquivalentRefl(a: Net)
    ensures Equivalent(a, a)
  {
  }

  lemma EquivalentTrans(a: Net, b: Net, c: Net)
    requires Equivalent(a, b) && Equivalent(b, c)
    ensures Equivalent(a, c)
  {
    forall val: Val, w: World
      ensures SameValuations(a, c, val, w)
    {
      assert SameValuations(a, b, val, w) && SameValuations(b, c, val, w);
      assert forall x: nat :: |a.nexus| <= x < |b.nexus| ==> b.nexus[x] == c.nexus[x];
    }
    assert c.nexus[..|a.nexus|] == c.nexus[..|b.nexus|][..|a.nexus|];
  }

  // ----- what a valuation depends on -----

  ghost predicate Agree(n: nat, u: Val, v: Val) {
    forall x: nat :: x < n ==> u(x) == v(x)
  }

  lemma OutBitAgrees(n: Node, nexus: seq<NexusInfo>, i: nat, u: Val, v: Val, w: World)
    requires WellNode(n, nexus) && Agree(|nexus|, u, v)
    ensures OutBit(n, i, u, w) == OutBit(n, i, v, w)
  {
    match n
    case ConcatN(_, ins, _) => assert Values(ins, u) == Values(ins, v);
    case MuxN(_, _, _, data) => assert Values(data, u) == Values(data, v);
    case Other(_, ins, _) => assert Values(ins, u) == Values(ins, v);
    case _ =>
  }

  lemma {:induction false} DriveAgrees(nodes: seq<Node>, nexus: seq<NexusInfo>, x: nat, i: nat, u: Val, v: Val,
      w: World)
    requires WellNet(Net(nodes, nexus)) && Agree(|nexus|, u, v)
    ensures DriveBit(nodes, x, i, u, w) == DriveBit(nodes, x, i, v, w)
    decreases |nodes|
  {
    if |nodes| > 0 {
      var m := |nodes| - 1;
      forall k | 0 <= k < m
        ensures WellNode(nodes[..m][k], nexus)
      {
        assert nodes[..m][k] == nodes[k];
      }
      DriveAgrees(nodes[..m], nexus, x, i, u, v, w);
      assert WellNode(nodes[m], nexus);
      OutBitAgrees(nodes[m], nexus, i, u, v, w);
    }
  }

  lemma ConsistentAgrees(net: Net, u: Val, v: Val, w: World)
    requires WellNet(net) && Agree(|net.nexus|, u, v) && Consistent(net, u, w)
    ensures Consistent(net, v, w)
  {
    forall x: nat | x < |net.nexus|
      ensures Settled(net, x, v, w)
    {
      assert Settled(net, x, u, w);
      forall i: nat | i < |v(x)|
        ensures v(x)[i] == NexusBit(net, x, i, v, w)
      {
        DriveAgrees(net.nodes, net.nexus, x, i, u, v, w);
      }
    }
  }

  /** Equivalent netlists have exactly the same consistent values on the nexuses of the first. */
  lemma SurvivorsKeepTheirValues(a: Net, b: Net, val: Val, w: World)
    requires WellNet(a) && Equivalent(a, b)
    ensures Consistent(a, val, w) <==> exists u: Val :: Agree(|a.nexus|, u, val) && Consistent(b, u, w)
  {
    if Consistent(a, val, w) {
      var u: Val := (x: nat) => if |a.nexus| <= x < |b.nexus| then Fill(VZ, b.nexus[x].wid) else val(x);
      ConsistentAgrees(a, val, u, w);
      assert SameValuations(a, b, u, w);
      assert Agree(|a.nexus|, u, val) && Consistent(b, u, w);
    }
    if u: Val :| Agree(|a.nexus|, u, val) && Consistent(b, u, w) {
      assert SameValuations(a, b, u, w);
      ConsistentAgrees(a, u, val, w);
    }
  }
}
