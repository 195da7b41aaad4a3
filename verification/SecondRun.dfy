/** What one run of constant propagation leaves for a second one. */
module SecondRun {
  import opened FourState
  import opened Netlist
  import opened Rewrites
  import opened PartBlend
  import opened Cprop

  // ----- readiness by the drivers alone -----

  predicate DrivenBy(net: Net, x: nat, k: int) {
    0 <= k < |net.nodes| && Drives(net.nodes[k], x)
  }

  predicate Quieted(n: NexusInfo) {
    n.outside == Nobody || (n.outside == RootPort && n.pull != Wire)
  }

  /** drivers_constant without the list: no two drivers, and one only if it is a constant on a
      plain wire. */
  lemma ConstDrivenMeans(net: Net, x: nat)
    ensures ConstDriven(net, x)
            <==> && x < |net.nexus| && Quieted(net.nexus[x])
                 && (forall i, j :: DrivenBy(net, x, i) && DrivenBy(net, x, j) ==> i == j)
                 && (forall j :: DrivenBy(net, x, j) ==> net.nodes[j].ConstN? && net.nexus[x].pull == Wire)
  {
    hide Drivers;
    var d := Drivers(net.nodes, x);
    forall j | DrivenBy(net, x, j)
      ensures j in d
    {
      DriversComplete(net.nodes, x, j);
    }
    if |d| >= 2 {
      assert DrivenBy(net, x, d[0]) && DrivenBy(net, x, d[1]) && d[0] != d[1];
    } else if |d| == 1 {
      assert DrivenBy(net, x, d[0]);
    }
  }

  predicate Within(p: Node, total: nat) {
    p.PartPV? && p.base + p.wid <= total
  }

  predicate Disjoint(p: Node, q: Node)
    requires p.PartPV? && q.PartPV?
  {
    p.base + p.wid <= q.base || q.base + q.wid <= p.base
  }

  lemma {:induction false} ApartWithin(parts: seq<Node>, off: nat, total: nat)
    requires AllPV(parts) && Apart(parts, off, total)
    ensures off <= total
  {
    if parts != [] {
      ApartWithin(parts[1..], parts[0].base + parts[0].wid, total);
    }
  }

  /** Part selects by increasing base lie apart exactly when no two overlap and each fits. */
  lemma {:induction false} ApartMeans(parts: seq<Node>, off: nat, total: nat)
    requires AllPV(parts) && off <= total
    requires forall j :: 0 <= j < |parts| ==> parts[j].wid > 0
    requires forall i, j :: 0 <= i < j < |parts| ==> parts[i].base <= parts[j].base
    ensures Apart(parts, off, total)
            <==> && (forall j :: 0 <= j < |parts| ==> off <= parts[j].base && parts[j].base + parts[j].wid <= total)
                 && (forall i, j :: 0 <= i < j < |parts| ==> Disjoint(parts[i], parts[j]))
  {
    if parts != [] {
      var rest, top := parts[1..], parts[0].base + parts[0].wid;
      assert forall j :: 1 <= j < |parts| ==> parts[j] == rest[j - 1];
      if top <= total {
        ApartMeans(rest, top, total);
        assert Apart(parts, off, total) <==> off <= parts[0].base && Apart(rest, top, total);
        if Apart(parts, off, total) {
          forall j | 0 <= j < |parts|
            ensures off <= parts[j].base && parts[j].base + parts[j].wid <= total
          {
            assert j > 0 ==> parts[j] == rest[j - 1];
          }
          forall i, j | 0 <= i < j < |parts|
            ensures Disjoint(parts[i], parts[j])
          {
            assert parts[j] == rest[j - 1];
            assert i > 0 ==> parts[i] == rest[i - 1];
          }
        } else if off <= parts[0].base {
          assert !Apart(rest, top, total);
          if j :| 0 <= j < |rest| && !(top <= rest[j].base && rest[j].base + rest[j].wid <= total) {
            assert rest[j] == parts[j + 1];
            assert rest[j].base + rest[j].wid <= total ==> !Disjoint(parts[0], parts[j + 1]);
          } else {
            var i, j :| 0 <= i < j < |rest| && !Disjoint(rest[i], rest[j]);
            assert !Disjoint(parts[i + 1], parts[j + 1]);
          }
        }
      } else if Apart(parts, off, total) {
        ApartWithin(rest, top, total);
      }
    }
  }

  lemma {:induction false} AscendingAll(nodes: seq<Node>, s: seq<nat>)
    requires AllParts(nodes, s) && Ascending(nodes, s)
    ensures forall i, j :: 0 <= i < j < |s| ==> nodes[s[i]].base <= nodes[s[j]].base
  {
    if |s| >= 2 {
      AscendingAll(nodes, s[1..]);
      assert forall j :: 1 <= j < |s| ==> s[j] == s[1..][j - 1];
    }
  }

  lemma {:induction false} Once(d: seq<nat>, k: nat)
    requires forall i, j :: 0 <= i < j < |d| ==> d[i] < d[j]
    ensures multiset(d)[k] <= 1
  {
    if d != [] {
      Once(d[1..], k);
      assert d == [d[0]] + d[1..];
      assert k == d[0] ==> k !in d[1..];
    }
  }

  lemma CountedTwice(s: seq<nat>, i: nat, j: nat)
    requires i < j < |s| && s[i] == s[j]
    ensures multiset(s)[s[i]] >= 2
  {
    assert s == s[..j] + s[j..];
    assert s[..j][i] == s[i] && s[j..][0] == s[i];
    assert s[i] in multiset(s[..j]) && s[i] in multiset(s[j..]);
  }

  /** The sorted drivers of a nexus are its drivers, each once. */
  lemma SortedDrivers(nodes: seq<Node>, x: nat, s: seq<nat>)
    requires AllParts(nodes, Drivers(nodes, x)) && s == SortByBase(nodes, Drivers(nodes, x))
    ensures forall i, j :: 0 <= i < j < |s| ==> s[i] != s[j]
  {
    hide Drivers, SortByBase;
    forall i, j | 0 <= i < j < |s|
      ensures s[i] != s[j]
    {
      if s[i] == s[j] {
        CountedTwice(s, i, j);
        Once(Drivers(nodes, x), s[i]);
      }
    }
  }

  /** The drivers are part selects of which no two overlap, each within the nexus. */
  ghost predicate Layable(net: Net, x: nat) {
    && x < |net.nexus|
    && (forall j :: DrivenBy(net, x, j) ==> Within(net.nodes[j], net.nexus[x].wid))
    && (forall i, j :: DrivenBy(net, x, i) && DrivenBy(net, x, j) && i != j ==> Disjoint(net.nodes[i], net.nodes[j]))
  }

  predicate PartsLayable(parts: seq<Node>, total: nat)
    requires AllPV(parts)
  {
    && (forall j :: 0 <= j < |parts| ==> Within(parts[j], total))
    && (forall i, j :: 0 <= i < j < |parts| ==> Disjoint(parts[i], parts[j]))
  }

  lemma LayableParts(net: Net, x: nat, s: seq<nat>, parts: seq<Node>)
    requires Layable(net, x) && Lists(net.nodes, x, s) && parts == Picked(net.nodes, s)
    requires forall i, j :: 0 <= i < j < |s| ==> s[i] != s[j]
    ensures PartsLayable(parts, net.nexus[x].wid)
  {
    forall j | 0 <= j < |s|
      ensures DrivenBy(net, x, s[j]) && Within(parts[j], net.nexus[x].wid)
    {
    }
  }

  lemma PartsLayableNodes(net: Net, x: nat, s: seq<nat>, parts: seq<Node>)
    requires x < |net.nexus| && Lists(net.nodes, x, s) && parts == Picked(net.nodes, s)
    requires PartsLayable(parts, net.nexus[x].wid)
    ensures Layable(net, x)
  {
    forall k | DrivenBy(net, x, k)
      ensures Within(net.nodes[k], net.nexus[x].wid)
    {
      var j :| 0 <= j < |s| && s[j] == k;
      assert Within(parts[j], net.nexus[x].wid);
    }
    forall k, l | DrivenBy(net, x, k) && DrivenBy(net, x, l) && k != l
      ensures Disjoint(net.nodes[k], net.nodes[l])
    {
      var i :| 0 <= i < |s| && s[i] == k;
      var j :| 0 <= j < |s| && s[j] == l;
      assert if i < j then Disjoint(parts[i], parts[j]) else Disjoint(parts[j], parts[i]);
    }
  }

  lemma ListedLayable(net: Net, x: nat, s: seq<nat>, parts: seq<Node>)
    requires x < |net.nexus| && Lists(net.nodes, x, s) && parts == Picked(net.nodes, s)
    requires forall i, j :: 0 <= i < j < |s| ==> s[i] != s[j]
    ensures Layable(net, x) <==> PartsLayable(parts, net.nexus[x].wid)
  {
    hide Layable, PartsLayable;
    if Layable(net, x) {
      LayableParts(net, x, s, parts);
    }
    if PartsLayable(parts, net.nexus[x].wid) {
      PartsLayableNodes(net, x, s, parts);
    }
  }

  lemma ApartLayable(parts: seq<Node>, total: nat)
    requires AllPV(parts)
    requires forall j :: 0 <= j < |parts| ==> parts[j].wid > 0
    requires forall i, j :: 0 <= i < j < |parts| ==> parts[i].base <= parts[j].base
    ensures Apart(parts, 0, total) <==> PartsLayable(parts, total)
  {
    ApartMeans(parts, 0, total);
  }

  lemma LayableMeans(net: Net, x: nat)
    requires WellNet(net) && x < |net.nexus| && AllParts(net.nodes, Drivers(net.nodes, x))
    ensures Apart(Picked(net.nodes, SortByBase(net.nodes, Drivers(net.nodes, x))), 0, net.nexus[x].wid)
            <==> Layable(net, x)
  {
    hide Drivers, SortByBase, Ascending, Apart, Layable, PartsLayable, Lists;
    var s := SortByBase(net.nodes, Drivers(net.nodes, x));
    var parts := Picked(net.nodes, s);
    SortedLists(net.nodes, x);
    AscendingAll(net.nodes, s);
    SortedDrivers(net.nodes, x, s);
    forall j | 0 <= j < |parts|
      ensures parts[j].wid > 0
    {
      assert WellNode(net.nodes[s[j]], net.nexus);
    }
    ApartLayable(parts, net.nexus[x].wid);
    ListedLayable(net, x, s, parts);
  }

  /** Whether two nodes at least drive x. */
  ghost predicate Shared(net: Net, x: nat) {
    exists i, j :: DrivenBy(net, x, i) && DrivenBy(net, x, j) && i != j
  }

  lemma SharedMeans(net: Net, x: nat)
    ensures Shared(net, x) <==> |Drivers(net.nodes, x)| >= 2
  {
    hide Drivers;
    var d := Drivers(net.nodes, x);
    if |d| >= 2 {
      assert DrivenBy(net, x, d[0]) && DrivenBy(net, x, d[1]);
    }
    if i, j :| DrivenBy(net, x, i) && DrivenBy(net, x, j) && i != j {
      DriversComplete(net.nodes, x, i);
      DriversComplete(net.nodes, x, j);
    }
  }

  /** lpm_part_select without sorting: it blends exactly where two or more part selects and nothing
      else drive a plain wire, no two of them overlap, and each lies within the wire. */
  lemma BlendableMeans(net: Net, x: nat)
    requires WellNet(net)
    ensures Blendable(net, x)
            <==> && x < |net.nexus| && net.nexus[x].pull == Wire && net.nexus[x].outside != Variable
                 && Shared(net, x) && Layable(net, x)
  {
    hide WellNode, Apart, SortByBase, Drivers;
    SharedMeans(net, x);
    var d := Drivers(net.nodes, x);
    if AllParts(net.nodes, d) {
      if x < |net.nexus| {
        LayableMeans(net, x);
      }
    } else {
      var j :| 0 <= j < |d| && !net.nodes[d[j]].PartPV?;
      assert DrivenBy(net, x, d[j]);
    }
  }

  predicate ShowsKnown(n: Node) {
    n.ConstN? && Known(At(n.bits, 0, VZ))
  }

  /** The bit of a constant nexus that a mux looks at. */
  lemma KnownMeans(net: Net, x: nat)
    requires ConstDriven(net, x) && net.nexus[x].wid > 0
    ensures Known(At(DrivenVector(net, x), 0, VZ))
            <==> net.nexus[x].pull != Wire || exists j :: DrivenBy(net, x, j) && ShowsKnown(net.nodes[j])
  {
    hide Drivers;
    var d := Drivers(net.nodes, x);
    if |d| == 1 {
      assert DrivenBy(net, x, d[0]);
      if j :| DrivenBy(net, x, j) && ShowsKnown(net.nodes[j]) {
        DriversComplete(net.nodes, x, j);
      }
    } else if j :| DrivenBy(net, x, j) && ShowsKnown(net.nodes[j]) {
      DriversComplete(net.nodes, x, j);
    }
  }

  // ----- what is ready once the constants are gone -----

  /** A driver that is not an all-z constant. */
  predicate Solid(net: Net, x: nat, k: int) {
    DrivenBy(net, x, k) && !Floating(net.nodes[k])
  }

  /** Constant but for z constants beside its driver. */
  ghost predicate FreedConst(net: Net, x: nat) {
    && x < |net.nexus| && Quieted(net.nexus[x])
    && (forall i, j :: Solid(net, x, i) && Solid(net, x, j) ==> i == j)
    && (forall j :: Solid(net, x, j) ==> net.nodes[j].ConstN? && net.nexus[x].pull == Wire)
  }

  ghost predicate FreedConcat(net: Net, k: nat) {
    && k < |net.nodes| && net.nodes[k].ConcatN? && !net.nodes[k].transparent
    && forall j :: 0 <= j < |net.nodes[k].ins| ==> FreedConst(net, net.nodes[k].ins[j])
  }

  ghost predicate FreedMux(net: Net, k: nat) {
    && k < |net.nodes| && Binary(net.nodes[k]) && FreedConst(net, net.nodes[k].sel)
    && (net.nexus[net.nodes[k].sel].pull != Wire
        || exists j :: Solid(net, net.nodes[k].sel, j) && ShowsKnown(net.nodes[j]))
  }

  /** A driver that the second functor leaves. */
  predicate Stays(net: Net, x: nat, k: int) {
    DrivenBy(net, x, k) && !Goes(net, k)
  }

  /** Part selects, at least two of them, that lie apart once the constants beside them go. */
  ghost predicate FreedPart(net: Net, k: nat) {
    && PartSelect(net, k) && net.nodes[k].out < |net.nexus|
    && var x := net.nodes[k].out;
       && net.nexus[x].pull == Wire && net.nexus[x].outside != Variable
       && (exists i, j :: Stays(net, x, i) && Stays(net, x, j) && i != j)
       && (forall j :: Stays(net, x, j) ==> Within(net.nodes[j], net.nexus[x].wid))
       && (forall i, j :: Stays(net, x, i) && Stays(net, x, j) && i != j ==> Disjoint(net.nodes[i], net.nodes[j]))
  }

  ghost predicate Freed(net: Net, k: nat) {
    FreedConcat(net, k) || FreedMux(net, k) || FreedPart(net, k)
  }

  /** From a nexus that some node reads only floating constants can go. */
  lemma ReadLosesFloating(net: Net, k: nat, x: nat)
    requires k < |net.nodes| && Reads(net.nodes[k], x)
    ensures forall j :: DrivenBy(Swept(net), x, j) <==> Solid(net, x, j)
    ensures forall j :: Solid(net, x, j) ==> Swept(net).nodes[j] == net.nodes[j]
  {
    assert !Unread(net.nodes, x);
    forall j
      ensures DrivenBy(Swept(net), x, j) <==> Solid(net, x, j)
      ensures Solid(net, x, j) ==> Swept(net).nodes[j] == net.nodes[j]
    {
      if DrivenBy(net, x, j) {
        assert Goes(net, j) <==> Floating(net.nodes[j]);
      }
    }
  }

  lemma SweptDriven(net: Net, x: nat)
    ensures forall j :: DrivenBy(Swept(net), x, j) <==> Stays(net, x, j)
    ensures forall j :: Stays(net, x, j) ==> Swept(net).nodes[j] == net.nodes[j]
  {
    hide Goes;
  }

  lemma SweptConst(net: Net, k: nat, x: nat)
    requires k < |net.nodes| && Reads(net.nodes[k], x)
    ensures ConstDriven(Swept(net), x) <==> FreedConst(net, x)
  {
    hide ConstDriven, DrivenBy, Solid, Reads;
    ReadLosesFloating(net, k, x);
    ConstDrivenMeans(Swept(net), x);
  }

  lemma SweptMux(net: Net, k: nat)
    requires WellNet(net) && k < |net.nodes| && net.nodes[k].MuxN?
    ensures MuxReady(Swept(net), k) <==> FreedMux(net, k)
  {
    hide ConstDriven, DrivenBy, Solid, DrivenVector, FreedConst;
    var sel := net.nodes[k].sel;
    assert WellNode(net.nodes[k], net.nexus);
    assert Swept(net).nodes[k] == net.nodes[k];
    SweptConst(net, k, sel);
    ReadLosesFloating(net, k, sel);
    if ConstDriven(Swept(net), sel) {
      KnownMeans(Swept(net), sel);
    }
  }

  lemma SweptWell(net: Net)
    requires WellNet(net)
    ensures WellNet(Swept(net))
  {
  }

  lemma SweptPart(net: Net, k: nat)
    requires WellNet(net) && PartSelect(net, k)
    ensures PartReady(Swept(net), k) <==> FreedPart(net, k)
  {
    hide Blendable, DrivenBy, Stays, WellNet;
    SweptWell(net);
    SweptDriven(net, net.nodes[k].out);
    assert Swept(net).nodes[k] == net.nodes[k];
    BlendableMeans(Swept(net), net.nodes[k].out);
  }

  lemma SweptReady(net: Net, k: nat)
    requires WellNet(net)
    ensures Ready(Swept(net), k) <==> Freed(net, k)
  {
    hide ConstDriven, FreedConst, WellNet;
    if k < |net.nodes| {
      match net.nodes[k]
      case ConcatN(_, ins, _) =>
        forall j | 0 <= j < |ins|
          ensures ConstDriven(Swept(net), ins[j]) <==> FreedConst(net, ins[j])
        {
          SweptConst(net, k, ins[j]);
        }
      case MuxN(_, _, _, _) => SweptMux(net, k);
      case PartPV(_, _, _, _) => SweptPart(net, k);
      case _ =>
    }
  }

  /** A run ends where no node is ready. Then there is work for a second one exactly when some
      concatenation or mux tests nexuses that are constant but for z constants, or some part
      selects lie apart and only constants that go drive beside them. */
  lemma WorkLeft(settled: Net)
    requires WellNet(settled) && forall k: nat :: !Ready(settled, k)
    ensures (exists k: nat :: Ready(Swept(settled), k)) <==> exists k: nat :: Freed(settled, k)
  {
    hide Ready, Freed;
    forall k: nat
      ensures Ready(Swept(settled), k) <==> Freed(settled, k)
    {
      SweptReady(settled, k);
    }
  }

  // ----- a condition under which nothing is left -----

  predicate Alone(net: Net, k: nat)
    requires k < |net.nodes| && net.nodes[k].ConstN?
  {
    var x := net.nodes[k].out;
    x < |net.nexus| && net.nexus[x].pull == Wire && Drivers(net.nodes, x) == [k]
  }

  /** No constant that goes shares its nexus with another driver or a pull. */
  predicate Lonely(net: Net) {
    forall k :: 0 <= k < |net.nodes| && Goes(net, k) ==> Alone(net, k)
  }

  lemma OnlyDriver(net: Net, k: nat, j: nat)
    requires k < |net.nodes| && net.nodes[k].ConstN? && Alone(net, k) && DrivenBy(net, net.nodes[k].out, j)
    ensures j == k
  {
    DriversComplete(net.nodes, net.nodes[k].out, j);
  }

  lemma LonelyConst(net: Net, x: nat)
    requires Lonely(net) && FreedConst(net, x)
    ensures ConstDriven(net, x)
    ensures (exists j :: DrivenBy(net, x, j) && !Solid(net, x, j))
            ==> net.nexus[x].pull == Wire && forall j :: !Solid(net, x, j)
  {
    hide ConstDriven, Drivers;
    ConstDrivenMeans(net, x);
    if f :| DrivenBy(net, x, f) && !Solid(net, x, f) {
      assert Goes(net, f) && Alone(net, f);
      forall j | DrivenBy(net, x, j)
        ensures j == f
      {
        OnlyDriver(net, f, j);
      }
    }
  }

  lemma SolidDrives(net: Net, x: nat)
    ensures forall j :: Solid(net, x, j) ==> DrivenBy(net, x, j)
  {
  }

  lemma LonelyPart(net: Net, k: nat)
    requires WellNet(net) && Lonely(net) && FreedPart(net, k)
    ensures Blendable(net, net.nodes[k].out)
  {
    hide WellNet, Drivers, Blendable;
    var x := net.nodes[k].out;
    BlendableMeans(net, x);
    forall j | DrivenBy(net, x, j)
      ensures Stays(net, x, j)
    {
      if Goes(net, j) {
        assert Alone(net, j);
        OnlyDriver(net, j, k);
      }
    }
  }

  lemma NothingLeftAt(net: Net, k: nat)
    requires WellNet(net) && Lonely(net) && Freed(net, k)
    ensures Ready(net, k)
  {
    hide ConstDriven, DrivenVector, Lonely, Drivers, FreedConst, Blendable, DrivenBy, Solid;
    assert k < |net.nodes|;
    if FreedConcat(net, k) {
      forall j | 0 <= j < |net.nodes[k].ins|
        ensures ConstDriven(net, net.nodes[k].ins[j])
      {
        LonelyConst(net, net.nodes[k].ins[j]);
      }
      assert ConcatReady(net, k);
    } else if FreedMux(net, k) {
      var sel := net.nodes[k].sel;
      assert WellNode(net.nodes[k], net.nexus);
      LonelyConst(net, sel);
      KnownMeans(net, sel);
      SolidDrives(net, sel);
      assert MuxReady(net, k);
    } else {
      LonelyPart(net, k);
      assert PartReady(net, k);
    }
  }

  /** Then one run is enough. */
  lemma NothingLeft(settled: Net)
    requires WellNet(settled) && Lonely(settled) && forall k: nat :: !Ready(settled, k)
    ensures forall k: nat :: !Ready(Swept(settled), k)
  {
    hide Ready, Freed, Lonely, WellNet;
    forall k: nat
      ensures !Ready(Swept(settled), k)
    {
      SweptReady(settled, k);
      if Freed(settled, k) {
        NothingLeftAt(settled, k);
      }
    }
  }

  // ----- a netlist that needs a second run -----

  lemma DriversSnoc(nodes: seq<Node>, n: Node, x: nat)
    ensures Drivers(nodes + [n], x) == Drivers(nodes, x) + if Drives(n, x) then [|nodes|] else []
  {
    assert (nodes + [n])[..|nodes|] == nodes;
  }

  lemma DriversOfThree(a: Node, b: Node, c: Node, x: nat)
    ensures Drivers([a, b, c], x)
            == (if Drives(a, x) then [0] else []) + (if Drives(b, x) then [1] else [])
               + (if Drives(c, x) then [2] else [])
  {
    var one := [a];
    var two := one + [b];
    DriversSnoc([], a, x);
    assert [] + [a] == one;
    DriversSnoc(one, b, x);
    DriversSnoc(two, c, x);
    assert two + [c] == [a, b, c];
  }

  function TwoConstants(z: Node): Net {
    var info := NexusInfo(1, Wire, Nobody, false);
    Net([ConstN(0, [V1]), z, ConcatN(1, [0], false)], [info, info])
  }

  lemma TwoConstantsReady(z: Node)
    requires z == Gone || z == ConstN(0, [VZ])
    ensures WellNet(TwoConstants(z)) && ConstDriven(TwoConstants(z), 0) == (z == Gone)
  {
    var net := TwoConstants(z);
    assert InsWidth([0], net.nexus) == 1 by {
      assert [0][1..] == [];
    }
    DriversOfThree(net.nodes[0], z, net.nodes[2], 0);
  }

  lemma NotReady(net: Net, j: nat)
    requires |net.nodes| == 3 && net.nodes[0].ConstN? && net.nodes[1].ConstN?
    requires net.nodes[2] == ConcatN(1, [0], false) && !ConstDriven(net, 0)
    ensures !Ready(net, j)
  {
    hide ConstDriven, Blendable, DrivenVector;
    assert j == 2 ==> net.nodes[j].ins[0] == 0;
  }

  lemma TwoConstantsStuck(j: nat)
    ensures !Ready(TwoConstants(ConstN(0, [VZ])), j)
  {
    TwoConstantsReady(ConstN(0, [VZ]));
    NotReady(TwoConstants(ConstN(0, [VZ])), j);
  }

  lemma TwoConstantsSwept(net: Net)
    requires net == TwoConstants(ConstN(0, [VZ]))
    ensures Swept(net) == TwoConstants(Gone)
  {
    assert Reads(net.nodes[2], 0);
    assert !Floating(net.nodes[0]) by { assert net.nodes[0].bits[0] != VZ; }
    assert !Goes(net, 0) && Goes(net, 1) && !Goes(net, 2);
    assert Swept(net).nodes == TwoConstants(Gone).nodes;
  }

  lemma OneConstantFolds(net: Net)
    requires |net.nodes| == 3 && net.nodes[2] == ConcatN(1, [0], false) && ConstDriven(net, 0)
    ensures Ready(net, 2)
  {
    assert ConcatReady(net, 2);
  }

  /** One run is not always enough: a z constant beside a constant keeps a concatenation alive,
      the loop stops, and only then does the z constant go. */
  lemma SecondRunFindsMore(net: Net)
    requires net == TwoConstants(ConstN(0, [VZ]))
    ensures WellNet(net) && (forall j: nat :: !Ready(net, j)) && Ready(Swept(net), 2)
  {
    TwoConstantsReady(ConstN(0, [VZ]));
    forall j: nat
      ensures !Ready(net, j)
    {
      TwoConstantsStuck(j);
    }
    TwoConstantsSwept(net);
    TwoConstantsReady(Gone);
    OneConstantFolds(TwoConstants(Gone));
  }
}
