/** Constant propagation over a design (qflow-org/iverilog/cprop.cc): the functors that rewrite
    the node list in place, and the loop that runs them until nothing changes. */
module Cprop {
  import opened FourState
  import opened Netlist
  import opened Rewrites
  import opened PartBlend
  import NexusDrivers

  // ----- how much is left to do -----

  /** Muxes, constant-foldable concatenations and part selects: each rewrite uses some up. */
  predicate Heavy(n: Node) {
    n.MuxN? || n.PartPV? || (n.ConcatN? && !n.transparent)
  }

  function Weight(nodes: seq<Node>): nat {
    if |nodes| == 0 then 0
    else Weight(nodes[..|nodes| - 1]) + (if Heavy(nodes[|nodes| - 1]) then 1 else 0)
  }

  lemma {:induction false} WeightWithout(nodes: seq<Node>, k: nat)
    requires k < |nodes|
    ensures Weight(nodes) == Weight(nodes[k := Gone]) + (if Heavy(nodes[k]) then 1 else 0)
    decreases |nodes|
  {
    var m := |nodes| - 1;
    if k < m {
      WeightWithout(nodes[..m], k);
      assert nodes[k := Gone][..m] == nodes[..m][k := Gone];
    } else {
      assert nodes[k := Gone][..m] == nodes[..m];
    }
  }

  lemma {:induction false} WeightAppend(a: seq<Node>, b: seq<Node>)
    ensures Weight(a + b) == Weight(a) + Weight(b)
    decreases |b|
  {
    if |b| == 0 {
      assert a + b == a;
    } else {
      WeightAppend(a, b[..|b| - 1]);
      assert (a + b)[..|a + b| - 1] == a + b[..|b| - 1];
    }
  }

  lemma WeightOne(n: Node)
    ensures Weight([n]) == if Heavy(n) then 1 else 0
  {
    assert [n][..0] == [];
  }

  lemma {:induction false} WeightLight(nodes: seq<Node>)
    requires forall k :: 0 <= k < |nodes| ==> !Heavy(nodes[k])
    ensures Weight(nodes) == 0
    decreases |nodes|
  {
    if |nodes| > 0 {
      WeightLight(nodes[..|nodes| - 1]);
    }
  }

  lemma {:induction false} WeightErased(nodes: seq<Node>, d: seq<nat>)
    requires AllParts(nodes, d)
    requires forall i, j :: 0 <= i < j < |d| ==> d[i] != d[j]
    ensures Weight(nodes) == Weight(Erase(nodes, d)) + |d|
    decreases |d|
  {
    if |d| == 0 {
      assert Erase(nodes, d) == nodes;
    } else {
      var m := |d| - 1;
      WeightErased(nodes, d[..m]);
      var e := Erase(nodes, d[..m]);
      assert d == d[..m] + [d[m]];
      assert Erase(nodes, d) == e[d[m] := Gone];
      assert d[m] !in d[..m];
      WeightWithout(e, d[m]);
    }
  }

  lemma ReplacedWeight(net: Net, k: nat, n: Node)
    requires k < |net.nodes| && Heavy(net.nodes[k]) && !Heavy(n)
    ensures Weight(net.nodes) == Weight(Replaced(net, k, n).nodes) + 1
  {
    WeightWithout(net.nodes, k);
    WeightAppend(net.nodes[k := Gone], [n]);
    WeightOne(n);
  }

  /** Blending adds a concatenation but takes at least two part selects. */
  lemma BlendedWeight(net: Net, x: nat)
    requires Blendable(net, x)
    ensures Weight(net.nodes) == Weight(Blended(net, x).nodes) + |Drivers(net.nodes, x)| - 1
    ensures Weight(net.nodes) > Weight(Blended(net, x).nodes)
  {
    var d := Drivers(net.nodes, x);
    var slots := BlendSlots(net, x);
    var n := |net.nexus|;
    var kept := Erase(net.nodes, d);
    var c := ConcatN(x, Pins(slots, n), false);
    WeightErased(net.nodes, d);
    GapConstsWell(slots, net.nexus);
    WeightLight(GapConsts(slots, n));
    WeightAppend(kept, GapConsts(slots, n));
    WeightAppend(kept + GapConsts(slots, n), [c]);
    WeightOne(c);
  }

  // ----- the design and its visitors -----

  /** Every answer that a nexus remembers is what a fresh look at its links would find. */
  predicate Remembered(net: Net, guess: seq<NexusDrivers.Guess>) {
    |guess| == |net.nexus|
    && forall x :: 0 <= x < |guess| ==> NexusDrivers.Honest(guess[x], NexusDrivers.LinksOf(net, x))
  }

  lemma OtherLinks(nodes: seq<Node>, n: Node, y: nat)
    requires !Drives(n, y)
    ensures NexusDrivers.DriverLinks(nodes + [n], y) == NexusDrivers.DriverLinks(nodes, y)
  {
    assert (nodes + [n])[..|nodes|] == nodes;
  }

  lemma {:induction false} LinksWithout(nodes: seq<Node>, k: nat, y: nat)
    requires k < |nodes| && !Drives(nodes[k], y)
    ensures NexusDrivers.DriverLinks(nodes[k := Gone], y) == NexusDrivers.DriverLinks(nodes, y)
    decreases |nodes|
  {
    var m := |nodes| - 1;
    if k < m {
      LinksWithout(nodes[..m], k, y);
      assert nodes[k := Gone][..m] == nodes[..m][k := Gone];
    } else {
      assert nodes[k := Gone][..m] == nodes[..m];
    }
  }

  /** An output pin that comes makes its own nexus forget, and no other. */
  lemma AddForgets(net: Net, guess: seq<NexusDrivers.Guess>, n: Node)
    requires Remembered(net, guess) && !n.Gone? && n.out < |net.nexus|
    ensures Remembered(Net(net.nodes + [n], net.nexus), guess[n.out := NexusDrivers.NoGuess])
  {
    forall y: nat | y < |net.nexus| && y != n.out
      ensures NexusDrivers.LinksOf(Net(net.nodes + [n], net.nexus), y) == NexusDrivers.LinksOf(net, y)
    {
      OtherLinks(net.nodes, n, y);
    }
  }

  /** And so does one that goes. */
  lemma DeleteForgets(net: Net, guess: seq<NexusDrivers.Guess>, k: nat)
    requires Remembered(net, guess) && k < |net.nodes| && !net.nodes[k].Gone? && net.nodes[k].out < |net.nexus|
    ensures Remembered(Dropped(net, k), guess[net.nodes[k].out := NexusDrivers.NoGuess])
  {
    forall y: nat | y < |net.nexus| && y != net.nodes[k].out
      ensures NexusDrivers.LinksOf(Dropped(net, k), y) == NexusDrivers.LinksOf(net, y)
    {
      LinksWithout(net.nodes, k, y);
    }
  }

  lemma GrowForgets(net: Net, guess: seq<NexusDrivers.Guess>, info: NexusInfo)
    requires Remembered(net, guess)
    ensures Remembered(Net(net.nodes, net.nexus + [info]), guess + [NexusDrivers.NoGuess])
  {
    var b := Net(net.nodes, net.nexus + [info]);
    assert forall y: nat :: y < |net.nexus| ==> NexusDrivers.LinksOf(b, y) == NexusDrivers.LinksOf(net, y);
  }

  class Design {
    var nodes: seq<Node>
    var nexus: seq<NexusInfo>
    var guess: seq<NexusDrivers.Guess>

    constructor (net: Net)
      ensures AsNet() == net && Remembers()
    {
      nodes := net.nodes;
      nexus := net.nexus;
      guess := seq(|net.nexus|, _ => NexusDrivers.NoGuess);
    }

    function AsNet(): Net
      reads this`nodes, this`nexus
    {
      Net(nodes, nexus)
    }

    predicate Remembers()
      reads this
    {
      Remembered(AsNet(), guess)
    }

    /** add_node, with the output pin connected to its nexus. */
    method AddNode(n: Node)
      requires Remembers() && !n.Gone? && n.out < |nexus|
      modifies this`nodes, this`guess
      ensures Remembers() && nodes == old(nodes) + [n]
    {
      AddForgets(AsNet(), guess, n);
      nodes := nodes + [n];
      guess := guess[n.out := NexusDrivers.NoGuess];
    }

    method Delete(k: nat)
      requires Remembers() && k < |nodes| && (nodes[k].Gone? || nodes[k].out < |nexus|)
      modifies this`nodes, this`guess
      ensures Remembers() && nodes == old(nodes)[k := Gone]
    {
      var n := nodes[k];
      assert nodes[k := n] == nodes;
      if !n.Gone? {
        DeleteForgets(AsNet(), guess, k);
        nodes := nodes[k := Gone];
        guess := guess[n.out := NexusDrivers.NoGuess];
      }
    }

    /** make_const_z: a new net with a z constant on it. */
    method MakeConstZ(wid: nat) returns (x: nat)
      requires Remembers()
      modifies this
      ensures Remembers() && x == |old(nexus)|
      ensures nexus == old(nexus) + [NexusInfo(wid, Wire, Nobody, false)]
      ensures nodes == old(nodes) + [ConstN(x, Fill(VZ, wid))]
    {
      x := |nexus|;
      GrowForgets(AsNet(), guess, NexusInfo(wid, Wire, Nobody, false));
      nexus := nexus + [NexusInfo(wid, Wire, Nobody, false)];
      guess := guess + [NexusDrivers.NoGuess];
      AddNode(ConstN(x, Fill(VZ, wid)));
    }

    /** drivers_constant, with what the nexus remembers from before. */
    method DriversConstant(x: nat) returns (r: bool)
      requires WellNet(AsNet()) && Remembers() && x < |nexus|
      modifies this`guess
      ensures Remembers() && r == ConstDriven(AsNet(), x)
    {
      NexusDrivers.ListedWell(AsNet(), x, NexusDrivers.DeclOf(nexus[x]));
      NexusDrivers.ListedAgree(AsNet(), x, NexusDrivers.DeclOf(nexus[x]));
      var nex := new NexusDrivers.Nexus.On(NexusDrivers.LinksOf(AsNet(), x), guess[x]);
      r := nex.DriversConstant(nexus[x].wid);
      guess := guess[x := nex.driven];
    }

    /** driven_value: remembered from now on. */
    method DrivenValue(x: nat) returns (b: Bit)
      requires WellNet(AsNet()) && Remembers() && ConstDriven(AsNet(), x) && nexus[x].wid > 0
      modifies this`guess
      ensures Remembers() && DrivenVector(AsNet(), x) != [] && b == DrivenVector(AsNet(), x)[0]
    {
      ghost var w := nexus[x].wid;
      NexusDrivers.ListedWell(AsNet(), x, NexusDrivers.DeclOf(nexus[x]));
      NexusDrivers.ListedAgree(AsNet(), x, NexusDrivers.DeclOf(nexus[x]));
      NexusDrivers.ListedVector(AsNet(), x, NexusDrivers.DeclOf(nexus[x]));
      NexusDrivers.BitIsBitZero(NexusDrivers.LinksOf(AsNet(), x), w);
      DrivenWidth(AsNet(), x);
      var nex := new NexusDrivers.Nexus.On(NexusDrivers.LinksOf(AsNet(), x), guess[x]);
      b := nex.DrivenValue(w);
      guess := guess[x := nex.driven];
    }

    /** driven_vector. */
    method DrivenVec(x: nat) returns (v: Vec)
      requires WellNet(AsNet()) && Remembers() && ConstDriven(AsNet(), x)
      ensures v == DrivenVector(AsNet(), x)
    {
      NexusDrivers.ListedWell(AsNet(), x, NexusDrivers.DeclOf(nexus[x]));
      NexusDrivers.ListedAgree(AsNet(), x, NexusDrivers.DeclOf(nexus[x]));
      NexusDrivers.ListedVector(AsNet(), x, NexusDrivers.DeclOf(nexus[x]));
      var nex := new NexusDrivers.Nexus.On(NexusDrivers.LinksOf(AsNet(), x), guess[x]);
      v := nex.DrivenVector(nexus[x].wid);
    }
  }

  /** The first pins fit in the width of the concatenation. */
  lemma {:induction false} InsWidthPrefix(ins: seq<nat>, k: nat, nexus: seq<NexusInfo>)
    requires InRange(ins, |nexus|) && k < |ins|
    ensures InRange(ins[..k], |nexus|) && InsWidth(ins[..k], nexus) + nexus[ins[k]].wid <= InsWidth(ins, nexus)
  {
    if k > 0 {
      InsWidthPrefix(ins[1..], k - 1, nexus);
      assert ins[..k][1..] == ins[1..][..k - 1];
    }
  }

  predicate PartSelect(net: Net, k: nat) {
    k < |net.nodes| && net.nodes[k].PartPV?
  }

  predicate PartReady(net: Net, k: nat) {
    PartSelect(net, k) && Blendable(net, net.nodes[k].out)
  }

  predicate Ready(net: Net, k: nat) {
    || ConcatReady(net, k)
    || MuxReady(net, k)
    || PartReady(net, k)
  }

  /** What one visit makes of the design. */
  function Rewritten(net: Net, k: nat): Net {
    if ConcatReady(net, k) then ConcatFolded(net, k)
    else if MuxReady(net, k) then MuxFolded(net, k)
    else if PartReady(net, k) then Blended(net, net.nodes[k].out)
    else net
  }

  lemma ReplacedWell(net: Net, k: nat, n: Node)
    requires WellNet(net) && k < |net.nodes| && WellNode(n, net.nexus)
    ensures WellNet(Replaced(net, k, n))
  {
  }

  lemma ConcatStep(net: Net, k: nat)
    requires WellNet(net) && Sealed(net.nexus) && ConcatReady(net, k)
    ensures WellNet(ConcatFolded(net, k)) && Equivalent(net, ConcatFolded(net, k))
    ensures Weight(ConcatFolded(net, k).nodes) < Weight(net.nodes)
  {
    var c := net.nodes[k];
    assert WellNode(c, net.nexus);
    DrivenCatWidth(net, c.ins);
    ConcatEquivalent(net, k);
    ReplacedWell(net, k, ConstN(c.out, DrivenCat(net, c.ins)));
    ReplacedWeight(net, k, ConstN(c.out, DrivenCat(net, c.ins)));
  }

  lemma MuxStep(net: Net, k: nat)
    requires WellNet(net) && Sealed(net.nexus) && MuxReady(net, k)
    ensures WellNet(MuxFolded(net, k)) && Equivalent(net, MuxFolded(net, k))
    ensures Weight(MuxFolded(net, k).nodes) < Weight(net.nodes)
  {
    var m := net.nodes[k];
    assert WellNode(m, net.nexus);
    MuxEquivalent(net, k);
    var n := BufZ(m.out, m.data[BitVal(DrivenVector(net, m.sel)[0])]);
    ReplacedWell(net, k, n);
    ReplacedWeight(net, k, n);
  }

  lemma BlendStep(net: Net, x: nat)
    requires WellNet(net) && Sealed(net.nexus) && Blendable(net, x)
    ensures WellNet(Blended(net, x)) && Sealed(Blended(net, x).nexus) && Equivalent(net, Blended(net, x))
    ensures Weight(Blended(net, x).nodes) < Weight(net.nodes)
  {
    BlendEquivalent(net, x);
    BlendedWeight(net, x);
    GapNexusPlain(BlendSlots(net, x));
  }

  /** A visit keeps the consistent valuations, and uses up weight when it rewrites. */
  lemma RewrittenEquivalent(net: Net, k: nat)
    requires WellNet(net) && Sealed(net.nexus)
    ensures WellNet(Rewritten(net, k)) && Sealed(Rewritten(net, k).nexus) && Equivalent(net, Rewritten(net, k))
    ensures if Ready(net, k) then Weight(Rewritten(net, k).nodes) < Weight(net.nodes) else Rewritten(net, k) == net
  {
    if ConcatReady(net, k) {
      ConcatStep(net, k);
    } else if MuxReady(net, k) {
      MuxStep(net, k);
    } else if PartReady(net, k) {
      BlendStep(net, net.nodes[k].out);
    }
  }

  // ----- the loops of lpm_part_select -----

  lemma {:induction false} ApartFromPairs(parts: seq<Node>, off: nat, total: nat)
    requires AllPV(parts) && parts != []
    requires off <= parts[0].base
    requires forall j :: 1 <= j < |parts| ==> parts[j - 1].base + parts[j - 1].wid <= parts[j].base
    requires var z := parts[|parts| - 1]; z.base + z.wid <= total
    ensures Apart(parts, off, total)
  {
    if |parts| > 1 {
      assert forall j :: 1 <= j < |parts| - 1 ==> parts[1..][j] == parts[j + 1] && parts[1..][j - 1] == parts[j];
      ApartFromPairs(parts[1..], parts[0].base + parts[0].wid, total);
    }
  }

  lemma {:induction false} PairsFromApart(parts: seq<Node>, off: nat, total: nat, j: nat)
    requires AllPV(parts) && Apart(parts, off, total) && j < |parts|
    ensures parts[j].base + parts[j].wid <= total
    ensures j > 0 ==> parts[j - 1].base + parts[j - 1].wid <= parts[j].base
  {
    if j > 0 {
      PairsFromApart(parts[1..], parts[0].base + parts[0].wid, total, j - 1);
    } else {
      LayoutWidth(parts[1..], parts[0].base + parts[0].wid, total);
    }
  }

  /** The two give-up tests: an overlap of neighbours, a tail beyond the target. */
  method RunApart(parts: seq<Node>, sigWidth: nat) returns (ok: bool)
    requires AllPV(parts) && parts != []
    ensures ok == Apart(parts, 0, sigWidth)
  {
    for idx := 1 to |parts|
      invariant forall j :: 1 <= j < idx ==> parts[j - 1].base + parts[j - 1].wid <= parts[j].base
    {
      var top := parts[idx - 1].base + parts[idx - 1].wid;
      if top > parts[idx].base {
        if Apart(parts, 0, sigWidth) {
          PairsFromApart(parts, 0, sigWidth, idx);
        }
        return false;
      }
    }
    var back := parts[|parts| - 1];
    if back.base + back.wid > sigWidth {
      if Apart(parts, 0, sigWidth) {
        PairsFromApart(parts, 0, sigWidth, |parts| - 1);
      }
      return false;
    }
    ApartFromPairs(parts, 0, sigWidth);
    return true;
  }

  lemma LayoutUnfold(parts: seq<Node>, idx: nat, off: nat, total: nat)
    requires AllPV(parts) && idx < |parts|
    ensures var p := parts[idx];
            Layout(parts[idx..], off, total)
            == if p.base > off then [Gap(p.base - off)] + Layout(parts[idx..], p.base, total)
               else [Piece(p.input, p.wid)] + Layout(parts[idx + 1..], off + p.wid, total)
  {
    assert parts[idx..][1..] == parts[idx + 1..];
  }

  /** The counting loop. */
  method CountComponents(parts: seq<Node>, sigWidth: nat) returns (partCount: nat)
    requires AllPV(parts)
    ensures partCount == |Layout(parts, 0, sigWidth)|
  {
    partCount := 0;
    var off := 0;
    for idx := 0 to |parts|
      invariant off >= 0
      invariant partCount + |Layout(parts[idx..], off, sigWidth)| == |Layout(parts[0..], 0, sigWidth)|
    {
      LayoutUnfold(parts, idx, off, sigWidth);
      if parts[idx].base > off {
        off := parts[idx].base;
        partCount := partCount + 1;
        LayoutUnfold(parts, idx, off, sigWidth);
      }
      off := off + parts[idx].wid;
      partCount := partCount + 1;
    }
    assert parts[|parts|..] == [] && parts[0..] == parts;
    if off < sigWidth {
      partCount := partCount + 1;
    }
  }

  lemma PinsUnfold(s: Slot, rest: seq<Slot>, next: nat)
    ensures Pins([s] + rest, next) == (if s.Gap? then [next] + Pins(rest, next + 1) else [s.input] + Pins(rest, next))
    ensures GapNexus([s] + rest) == (if s.Gap? then [NexusInfo(s.wid, Wire, Nobody, false)] else []) + GapNexus(rest)
    ensures GapConsts([s] + rest, next)
            == if s.Gap? then [ConstN(next, Fill(VZ, s.wid))] + GapConsts(rest, next + 1) else GapConsts(rest, next)
  {
    assert ([s] + rest)[1..] == rest;
  }

  lemma {:induction false} PinCount(slots: seq<Slot>, next: nat)
    ensures |Pins(slots, next)| == |slots|
  {
    if slots != [] {
      PinCount(slots[1..], if slots[0].Gap? then next + 1 else next);
    }
  }

  /** The nets, nodes and pins made so far, and those the filling loop still owes, come to all. */
  predicate Owes(d: Net, pins: seq<nat>, slots: seq<Slot>, net: Net, all: seq<Slot>) {
    && pins + Pins(slots, |d.nexus|) == Pins(all, |net.nexus|)
    && d.nexus + GapNexus(slots) == net.nexus + GapNexus(all)
    && d.nodes + GapConsts(slots, |d.nexus|) == net.nodes + GapConsts(all, |net.nexus|)
  }

  lemma MoveOver<T>(a: seq<T>, x: T, b: seq<T>)
    ensures a + ([x] + b) == a + [x] + b
  {
  }

  lemma GapPaid(d: Net, pins: seq<nat>, wid: nat, rest: seq<Slot>, net: Net, all: seq<Slot>)
    requires Owes(d, pins, [Gap(wid)] + rest, net, all)
    ensures var x := |d.nexus|;
            Owes(Net(d.nodes + [ConstN(x, Fill(VZ, wid))], d.nexus + [NexusInfo(wid, Wire, Nobody, false)]),
                pins + [x], rest, net, all)
  {
    hide Pins, GapNexus, GapConsts;
    var x := |d.nexus|;
    PinsUnfold(Gap(wid), rest, x);
    MoveOver(pins, x, Pins(rest, x + 1));
    MoveOver(d.nexus, NexusInfo(wid, Wire, Nobody, false), GapNexus(rest));
    MoveOver(d.nodes, ConstN(x, Fill(VZ, wid)), GapConsts(rest, x + 1));
  }

  /** One gap of the filling loop. */
  method FillGap(des: Design, pins: seq<nat>, wid: nat, ghost rest: seq<Slot>, ghost net: Net, ghost all: seq<Slot>)
    returns (longer: seq<nat>)
    requires des.Remembers() && Owes(des.AsNet(), pins, [Gap(wid)] + rest, net, all)
    modifies des
    ensures des.Remembers() && Owes(des.AsNet(), longer, rest, net, all)
  {
    GapPaid(des.AsNet(), pins, wid, rest, net, all);
    var z := des.MakeConstZ(wid);
    longer := pins + [z];
  }

  /** One pin of the filling loop. */
  lemma PiecePaid(d: Net, pins: seq<nat>, p: Node, rest: seq<Slot>, net: Net, all: seq<Slot>)
    requires p.PartPV? && Owes(d, pins, [Piece(p.input, p.wid)] + rest, net, all)
    ensures Owes(d, pins + [p.input], rest, net, all)
  {
    hide Pins, GapNexus, GapConsts;
    PinsUnfold(Piece(p.input, p.wid), rest, |d.nexus|);
    MoveOver(pins, p.input, Pins(rest, |d.nexus|));
  }

  lemma StartOwing(net: Net, all: seq<Slot>)
    ensures Owes(net, [], all, net, all)
  {
  }

  lemma LayoutEnd(off: nat, total: nat)
    ensures Layout([], off, total) == if off < total then [Gap(total - off)] + [] else []
  {
  }

  lemma PaidUp(d: Net, pins: seq<nat>, net: Net, all: seq<Slot>)
    requires Owes(d, pins, [], net, all)
    ensures pins == Pins(all, |net.nexus|) && |pins| == |all|
    ensures d.nexus == net.nexus + GapNexus(all)
    ensures d.nodes == net.nodes + GapConsts(all, |net.nexus|)
  {
    PinCount(all, |net.nexus|);
    assert Pins([], |d.nexus|) == [] && GapConsts([], |d.nexus|) == [] && GapNexus([]) == [];
  }

  /** The filling loop: makes the gap constants and lists the pins of the concatenation. */
  method FillConcat(des: Design, parts: seq<Node>, sigWidth: nat) returns (pins: seq<nat>)
    requires AllPV(parts) && des.Remembers()
    modifies des
    ensures des.Remembers()
    ensures var slots := Layout(parts, 0, sigWidth);
            && pins == Pins(slots, |old(des.nexus)|) && |pins| == |slots|
            && des.nexus == old(des.nexus) + GapNexus(slots)
            && des.nodes == old(des.nodes) + GapConsts(slots, |old(des.nexus)|)
  {
    hide Owes, Layout, Pins, GapNexus, GapConsts, Remembered;
    ghost var net := des.AsNet();
    ghost var all := Layout(parts, 0, sigWidth);
    ghost var owed := all;
    pins := [];
    var off: nat := 0;
    assert parts[0..] == parts;
    StartOwing(net, all);
    for idx := 0 to |parts|
      invariant owed == Layout(parts[idx..], off, sigWidth)
      invariant des.Remembers() && Owes(des.AsNet(), pins, owed, net, all)
    {
      var p := parts[idx];
      LayoutUnfold(parts, idx, off, sigWidth);
      if p.base > off {
        owed := Layout(parts[idx..], p.base, sigWidth);
        pins := FillGap(des, pins, p.base - off, owed, net, all);
        off := p.base;
        LayoutUnfold(parts, idx, off, sigWidth);
      }
      owed := Layout(parts[idx + 1..], off + p.wid, sigWidth);
      PiecePaid(des.AsNet(), pins, p, owed, net, all);
      pins := pins + [p.input];
      off := off + p.wid;
    }
    assert parts[|parts|..] == [];
    LayoutEnd(off, sigWidth);
    if off < sigWidth {
      pins := FillGap(des, pins, sigWidth - off, [], net, all);
    }
    PaidUp(des.AsNet(), pins, net, all);
  }

  /** The part selects that drive x, or nothing when something else drives it too. */
  method CollectParts(des: Design, x: nat) returns (found: bool, objSet: seq<nat>)
    requires x < |des.nexus|
    ensures found == (des.nexus[x].pull == Wire && des.nexus[x].outside != Variable
                      && AllParts(des.nodes, Drivers(des.nodes, x)))
    ensures found ==> objSet == Drivers(des.nodes, x)
  {
    objSet := [];
    if des.nexus[x].pull != Wire || des.nexus[x].outside == Variable {
      return false, [];
    }
    for k := 0 to |des.nodes|
      invariant objSet == Drivers(des.nodes[..k], x)
      invariant AllParts(des.nodes, objSet)
    {
      assert des.nodes[..k + 1][..k] == des.nodes[..k];
      if Drives(des.nodes[k], x) {
        if !des.nodes[k].PartPV? {
          DriversComplete(des.nodes, x, k);
          return false, [];
        }
        objSet := objSet + [k];
      }
    }
    assert des.nodes[..|des.nodes|] == des.nodes;
    return true, objSet;
  }

  method DeleteAll(des: Design, objSet: seq<nat>)
    requires des.Remembers()
    requires forall j :: 0 <= j < |objSet| ==> objSet[j] < |des.nodes| && des.nodes[objSet[j]].PartPV?
    requires forall j :: 0 <= j < |objSet| ==> des.nodes[objSet[j]].out < |des.nexus|
    modifies des`nodes, des`guess
    ensures des.Remembers() && des.nodes == Erase(old(des.nodes), objSet)
  {
    for idx := 0 to |objSet|
      invariant des.Remembers() && |des.nodes| == |old(des.nodes)|
      invariant des.nodes == Erase(old(des.nodes), objSet[..idx])
    {
      des.Delete(objSet[idx]);
      assert objSet[..idx + 1] == objSet[..idx] + [objSet[idx]];
    }
    assert objSet[..|objSet|] == objSet;
  }

  lemma DriversListed(nodes: seq<Node>, x: nat, order: seq<nat>)
    requires multiset(order) == multiset(Drivers(nodes, x))
    ensures forall j :: 0 <= j < |order| ==> order[j] < |nodes| && Drives(nodes[order[j]], x)
  {
    forall j | 0 <= j < |order|
      ensures order[j] < |nodes| && Drives(nodes[order[j]], x)
    {
      assert order[j] in multiset(Drivers(nodes, x));
    }
  }

  lemma ErasedTail(nodes: seq<Node>, zs: seq<Node>, c: Node, s: seq<nat>, d: seq<nat>)
    requires forall j :: 0 <= j < |s| ==> s[j] < |nodes|
    requires forall j :: 0 <= j < |d| ==> d[j] < |nodes|
    requires multiset(s) == multiset(d)
    ensures Erase(nodes + zs + [c], s) == Erase(nodes, d) + zs + [c]
  {
    forall k: nat
      ensures k in s <==> k in d
    {
      assert k in s <==> k in multiset(s);
    }
  }

  /** The constants of the first inputs. */
  predicate Collected(net: Net, ins: seq<nat>, vs: seq<Vec>)
    requires |vs| <= |ins|
  {
    forall j :: 0 <= j < |vs| ==> ConstDriven(net, ins[j]) && vs[j] == DrivenVector(net, ins[j])
  }

  lemma CollectedWidth(net: Net, ins: seq<nat>, vs: seq<Vec>)
    requires WellNet(net) && |vs| < |ins| && InRange(ins, |net.nexus|) && Collected(net, ins, vs)
    requires ConstDriven(net, ins[|vs|])
    ensures |Join(vs)| + |DrivenVector(net, ins[|vs|])| <= InsWidth(ins, net.nexus)
  {
    var idx := |vs|;
    forall j | 0 <= j < idx
      ensures |vs[j]| == net.nexus[ins[..idx][j]].wid
    {
      DrivenWidth(net, ins[j]);
    }
    JoinWidth(vs, ins[..idx], net.nexus);
    DrivenWidth(net, ins[idx]);
    InsWidthPrefix(ins, idx, net.nexus);
  }

  lemma CollectedNone()
    ensures Join([]) == []
  {
  }

  lemma CollectedAll(net: Net, ins: seq<nat>, vs: seq<Vec>)
    requires WellNet(net) && |vs| == |ins| && Collected(net, ins, vs)
    ensures forall j :: 0 <= j < |ins| ==> ConstDriven(net, ins[j])
    ensures Join(vs) == DrivenCat(net, ins) && InRange(ins, |net.nexus|) && |Join(vs)| == InsWidth(ins, net.nexus)
  {
    assert vs == DrivenVectors(net, ins);
    DrivenCatWidth(net, ins);
  }

  /** The loop of lpm_concat: the constant that the inputs make, or nothing. */
  method CollectConstants(des: Design, ins: seq<nat>, width: nat) returns (found: bool, result: Vec)
    requires WellNet(des.AsNet()) && des.Remembers() && InRange(ins, |des.nexus|) && InsWidth(ins, des.nexus) == width
    modifies des`guess
    ensures des.Remembers() && found == forall j :: 0 <= j < |ins| ==> ConstDriven(des.AsNet(), ins[j])
    ensures found ==> result == DrivenCat(des.AsNet(), ins)
  {
    hide ConstDriven, DrivenVector, WellNet, InsWidth, Join, Remembered;
    ghost var net := des.AsNet();
    result := Fill(VZ, width);
    var off := 0;
    CollectedNone();
    ghost var vs: seq<Vec> := [];
    for idx := 0 to |ins|
      invariant des.AsNet() == net && des.Remembers()
      invariant |vs| == idx && Collected(net, ins, vs)
      invariant |result| == width
      invariant 0 <= off <= width
      invariant result[..off] == Join(vs)
    {
      var constant := des.DriversConstant(ins[idx]);
      if !constant {
        return false, [];
      }
      var tmp := des.DrivenVec(ins[idx]);
      CollectedWidth(net, ins, vs);
      JoinSnoc(vs, tmp);
      vs := vs + [tmp];
      result := result[..off] + tmp + result[off + |tmp|..];
      off := off + |tmp|;
    }
    CollectedAll(net, ins, vs);
    assert result[..off] == result;
    return true, result;
  }

  /** What count rewrites keep: the consistent values, and the weight less one for each. */
  ghost predicate Kept(net: Net, after: Net, count: nat) {
    && WellNet(after) && Sealed(after.nexus) && Equivalent(net, after)
    && Weight(after.nodes) + count <= Weight(net.nodes)
  }

  lemma KeptStart(net: Net)
    requires WellNet(net) && Sealed(net.nexus)
    ensures Kept(net, net, 0)
  {
    EquivalentRefl(net);
  }

  lemma KeptStep(net: Net, mid: Net, k: nat, count: nat)
    requires Kept(net, mid, count)
    ensures WellNet(mid)
    ensures Kept(net, Rewritten(mid, k), if Ready(mid, k) then count + 1 else count)
    ensures !Ready(mid, k) ==> Rewritten(mid, k) == mid
  {
    RewrittenEquivalent(mid, k);
    EquivalentTrans(net, mid, Rewritten(mid, k));
  }

  class CpropFunctor {
    var count: nat

    constructor ()
    {
      count := 0;
    }

    method LpmConcat(des: Design, k: nat)
      requires k < |des.nodes| && des.nodes[k].ConcatN? && WellNet(des.AsNet()) && des.Remembers()
      modifies this`count, des
      ensures des.Remembers()
      ensures des.AsNet() == old(if ConcatReady(des.AsNet(), k) then ConcatFolded(des.AsNet(), k) else des.AsNet())
      ensures count == old(count) + if old(ConcatReady(des.AsNet(), k)) then 1 else 0
    {
      var obj := des.nodes[k];
      if obj.transparent {
        return;
      }
      assert WellNode(obj, des.nexus);
      var found, result := CollectConstants(des, obj.ins, des.nexus[obj.out].wid);
      if !found {
        return;
      }
      des.Delete(k);
      des.AddNode(ConstN(obj.out, result));
      count := count + 1;
    }

    method LpmMux(des: Design, k: nat)
      requires k < |des.nodes| && des.nodes[k].MuxN? && WellNet(des.AsNet()) && des.Remembers()
      modifies this`count, des
      ensures des.Remembers()
      ensures des.AsNet() == old(if MuxReady(des.AsNet(), k) then MuxFolded(des.AsNet(), k) else des.AsNet())
      ensures count == old(count) + if old(MuxReady(des.AsNet(), k)) then 1 else 0
    {
      var obj := des.nodes[k];
      if |obj.data| != 2 || obj.selWidth != 1 {
        return;
      }
      assert WellNode(obj, des.nexus);
      var constant := des.DriversConstant(obj.sel);
      if !constant {
        return;
      }
      var selVal := des.DrivenValue(obj.sel);
      if selVal == VZ || selVal == VX {
        return;
      }
      var data := if selVal == V1 then obj.data[1] else obj.data[0];
      des.Delete(k);
      des.AddNode(BufZ(obj.out, data));
      count := count + 1;
    }

    method LpmPartSelect(des: Design, k: nat)
      requires PartSelect(des.AsNet(), k) && WellNet(des.AsNet()) && des.Remembers()
      modifies this`count, des
      ensures des.Remembers()
      ensures des.AsNet() == old(if PartReady(des.AsNet(), k) then Blended(des.AsNet(), des.nodes[k].out)
                                       else des.AsNet())
      ensures count == old(count) + if old(PartReady(des.AsNet(), k)) then 1 else 0
    {
      var x := des.nodes[k].out;
      assert WellNode(des.nodes[k], des.nexus);
      var found, objSet := CollectParts(des, x);
      if !found || |objSet| < 2 {
        return;
      }
      var order := SortByBase(des.nodes, objSet);
      var parts := Picked(des.nodes, order);
      assert |multiset(order)| == |multiset(objSet)|;
      var apart := RunApart(parts, des.nexus[x].wid);
      if !apart {
        return;
      }
      Blend(des, x, order, parts);
      count := count + 1;
    }

    /** The concatenation in place of the part selects, once nothing stands against it. */
    method Blend(des: Design, x: nat, order: seq<nat>, parts: seq<Node>)
      requires Blendable(des.AsNet(), x) && des.Remembers()
      requires order == SortByBase(des.nodes, Drivers(des.nodes, x)) && parts == Picked(des.nodes, order)
      modifies des
      ensures des.Remembers() && des.AsNet() == old(Blended(des.AsNet(), x))
    {
      ghost var net := des.AsNet();
      ghost var slots := BlendSlots(net, x);
      BuildConcat(des, x, order, parts, slots);
    }

    method BuildConcat(des: Design, x: nat, order: seq<nat>, parts: seq<Node>, ghost slots: seq<Slot>)
      requires x < |des.nexus| && AllPV(parts) && slots == Layout(parts, 0, des.nexus[x].wid)
      requires AllParts(des.nodes, order) && des.Remembers()
      requires multiset(order) == multiset(Drivers(des.nodes, x))
      modifies des
      ensures des.Remembers() && des.AsNet() == old(Spliced(des.AsNet(), x, slots))
    {
      ghost var net := des.AsNet();
      var partCount := CountComponents(parts, des.nexus[x].wid);
      var pins := FillConcat(des, parts, des.nexus[x].wid);
      assert |pins| == partCount;
      des.AddNode(ConcatN(x, pins, false));
      DriversListed(net.nodes, x, order);
      DeleteAll(des, order);
      ErasedTail(net.nodes, GapConsts(slots, |net.nexus|), ConcatN(x, pins, false), order, Drivers(net.nodes, x));
    }

    method Visit(des: Design, k: nat)
      requires WellNet(des.AsNet()) && des.Remembers()
      modifies this`count, des
      ensures des.Remembers() && des.AsNet() == old(Rewritten(des.AsNet(), k))
      ensures count == old(count) + if old(Ready(des.AsNet(), k)) then 1 else 0
    {
      if k < |des.nodes| {
        match des.nodes[k] {
          case ConcatN(_, _, _) => LpmConcat(des, k);
          case MuxN(_, _, _, _) => LpmMux(des, k);
          case PartPV(_, _, _, _) => LpmPartSelect(des, k);
          case _ =>
        }
      }
    }

    /** One scan of the nodes, in any order: every rewrite is counted, the consistent values
        stay, and a scan that counts nothing found nothing to do. */
    method Scan(des: Design, order: seq<nat>)
      requires WellNet(des.AsNet()) && Sealed(des.AsNet().nexus) && des.Remembers()
      modifies this, des
      ensures des.Remembers() && Kept(old(des.AsNet()), des.AsNet(), count)
      ensures count == 0 ==> des.AsNet() == old(des.AsNet()) && forall k :: k in order ==> !Ready(des.AsNet(), k)
    {
      hide *;
      ghost var net := des.AsNet();
      count := 0;
      KeptStart(net);
      for idx := 0 to |order|
        invariant des.Remembers() && Kept(net, des.AsNet(), count)
        invariant count == 0 ==> des.AsNet() == net && forall j :: 0 <= j < idx ==> !Ready(net, order[j])
      {
        KeptStep(net, des.AsNet(), order[idx], count);
        Visit(des, order[idx]);
      }
    }
  }

  /** A constant that the second functor takes out. */
  predicate Goes(net: Net, k: nat) {
    k < |net.nodes| && (Floating(net.nodes[k]) || Dangling(net, k))
  }

  lemma GoneObserved(net: Net, mid: Net, k: nat)
    requires SameObserved(net, mid) && Goes(mid, k)
    ensures SameObserved(net, Dropped(mid, k))
  {
    if Floating(mid.nodes[k]) {
      FloatingSameObserved(mid, k);
    } else {
      DanglingMayGo(mid, k);
    }
    SameObservedTrans(net, mid, Dropped(mid, k));
  }

  /** The only driver of a plain nexus goes exactly when taking it out changes nothing that anybody sees. */
  lemma LoneConstantExactness(net: Net, k: nat, val: Val, w: World)
    requires WellNet(net) && k < |net.nodes| && net.nodes[k].ConstN? && Consistent(net, val, w)
    requires var x := net.nodes[k].out; ConstDriven(net, x) && net.nexus[x].pull == Wire
    ensures Goes(net, k) <==> SameObserved(net, Dropped(net, k))
  {
    var b, x := Dropped(net, k), net.nodes[k].out;
    if Goes(net, k) {
      SameObservedRefl(net);
      GoneObserved(net, net, k);
    } else {
      var i: nat :| i < |net.nodes[k].bits| && net.nodes[k].bits[i] != VZ;
      ConstDrivenSettles(net, x, val, w);
      assert val(x) == net.nodes[k].bits by {
        DroppedFloats(net, k, i, val, w);
      }
      forall u: Val | AgreeObserved(net, u, val)
        ensures !Consistent(b, u, w)
      {
        assert Observed(net, x) && u(x) == val(x);
        DroppedFloats(net, k, i, u, w);
        assert !Settled(b, x, u, w);
      }
      assert !Shows(net, b);
    }
  }

  ghost predicate SweptTo(net: Net, nodes: seq<Node>, done: seq<nat>) {
    |nodes| == |net.nodes|
    && forall k: nat :: k < |nodes| ==> nodes[k] == if k in done && Goes(net, k) then Gone else net.nodes[k]
  }

  /** What the visit of k leaves. */
  function Visited(mid: Net, k: nat): Net {
    if Goes(mid, k) then Dropped(mid, k) else mid
  }

  lemma SweepStep(net: Net, mid: Net, done: seq<nat>, k: nat)
    requires WellNet(mid) && SameObserved(net, mid) && SweptTo(net, mid.nodes, done)
    ensures WellNet(Visited(mid, k)) && SameObserved(net, Visited(mid, k))
    ensures SweptTo(net, Visited(mid, k).nodes, done + [k])
    ensures k < |mid.nodes| && mid.nodes[k].ConstN? ==> mid.nodes[k].out < |mid.nexus|
  {
    assert k < |mid.nodes| ==> WellNode(mid.nodes[k], mid.nexus);
    if Goes(mid, k) {
      GoneObserved(net, mid, k);
    }
    assert k < |mid.nodes| && !mid.nodes[k].Gone? ==> (Goes(mid, k) <==> Goes(net, k)) by {
      hide Unread, Shows;
    }
    assert k < |mid.nodes| && mid.nodes[k].Gone? ==> !Goes(mid, k);
  }

  /** The number of links of x that take input. */
  method CountInputs(des: Design, x: nat) returns (inp: nat)
    ensures inp == 0 <==> Unread(des.nodes, x)
  {
    inp := 0;
    for k := 0 to |des.nodes|
      invariant inp == 0 <==> forall j :: 0 <= j < k ==> !Reads(des.nodes[j], x)
    {
      if Reads(des.nodes[k], x) {
        inp := inp + 1;
      }
    }
  }

  class CpropDcFunctor {
    constructor ()
    {
    }

    /** lpm_const: an all-z constant, and one on a nexus that takes no input and is not seen. */
    method LpmConst(des: Design, k: nat)
      requires k < |des.nodes| && des.nodes[k].ConstN? && des.nodes[k].out < |des.nexus| && des.Remembers()
      modifies des`nodes, des`guess
      ensures des.Remembers()
      ensures des.nodes == if old(Goes(des.AsNet(), k)) then old(des.nodes)[k := Gone] else old(des.nodes)
    {
      var obj := des.nodes[k];
      var tmp := 0;
      for idx := 0 to |obj.bits|
        invariant 0 <= tmp <= idx
        invariant tmp == idx <==> forall j :: 0 <= j < idx ==> obj.bits[j] == VZ
      {
        if obj.bits[idx] == VZ {
          tmp := tmp + 1;
        }
      }
      if tmp == |obj.bits| {
        des.Delete(k);
        return;
      }
      var inp := CountInputs(des, obj.out);
      if inp > 0 {
        return;
      }
      if des.nexus[obj.out].seen {
        return;
      }
      des.Delete(k);
    }

    method Scan(des: Design, order: seq<nat>)
      requires WellNet(des.AsNet()) && des.Remembers()
      modifies des`nodes, des`guess
      ensures des.Remembers() && WellNet(des.AsNet()) && SameObserved(old(des.AsNet()), des.AsNet())
      ensures |des.nodes| == |old(des.nodes)|
      ensures forall k: nat :: k < |des.nodes| ==>
                des.nodes[k] == if k in order && Goes(old(des.AsNet()), k) then Gone else old(des.nodes)[k]
    {
      hide SameObserved, Remembered, WellNode;
      ghost var net := des.AsNet();
      SameObservedRefl(net);
      for idx := 0 to |order|
        invariant des.Remembers() && WellNet(des.AsNet()) && SameObserved(net, des.AsNet())
        invariant SweptTo(net, des.nodes, order[..idx])
      {
        var k := order[idx];
        assert order[..idx + 1] == order[..idx] + [k];
        ghost var mid := des.AsNet();
        SweepStep(net, mid, order[..idx], k);
        if k < |des.nodes| && des.nodes[k].ConstN? {
          LpmConst(des, k);
        }
      }
      assert order[..|order|] == order;
    }
  }

  /** A scan of n nodes reaches each of them at least once, in an order of its own. */
  ghost predicate Reaches(schedule: (nat, nat) -> seq<nat>) {
    forall pass: nat, n: nat, k: nat :: k < n ==> k in schedule(pass, n)
  }

  /** The propagation loop: scans until a scan finds nothing to do. Every run ends, after at
      most one scan more than there were muxes, concatenations and part selects. */
  method Propagate(des: Design, schedule: (nat, nat) -> seq<nat>) returns (passes: nat)
    requires WellNet(des.AsNet()) && Sealed(des.nexus) && des.Remembers() && Reaches(schedule)
    modifies des
    ensures des.Remembers() && WellNet(des.AsNet()) && Sealed(des.nexus) && Equivalent(old(des.AsNet()), des.AsNet())
    ensures forall k: nat :: k < |des.nodes| ==> !Ready(des.AsNet(), k)
    ensures 1 <= passes <= Weight(old(des.nodes)) - Weight(des.nodes) + 1
  {
    ghost var net := des.AsNet();
    var prop := new CpropFunctor();
    passes := 0;
    var again := true;
    while again
      invariant fresh(prop) && des.Remembers()
      invariant WellNet(des.AsNet()) && Sealed(des.nexus) && Equivalent(net, des.AsNet())
      invariant passes + Weight(des.nodes) <= Weight(net.nodes) + (if again then 0 else 1)
      invariant again || passes >= 1
      invariant !again ==> forall k: nat :: k < |des.nodes| ==> !Ready(des.AsNet(), k)
      decreases Weight(des.nodes) + if again then 1 else 0
    {
      ghost var before := des.AsNet();
      prop.Scan(des, schedule(passes, |des.nodes|));
      EquivalentTrans(net, before, des.AsNet());
      passes := passes + 1;
      again := prop.count > 0;
    }
  }

  /** The netlist without the constants that go. */
  function Swept(net: Net): (r: Net)
    ensures r.nexus == net.nexus && |r.nodes| == |net.nodes|
    ensures forall k: nat :: k < |r.nodes| ==> r.nodes[k] == if Goes(net, k) then Gone else net.nodes[k]
  {
    Net(seq(|net.nodes|, k requires 0 <= k < |net.nodes| => if Goes(net, k) then Gone else net.nodes[k]), net.nexus)
  }

  lemma SweptStays(net: Net, k: nat)
    ensures !Goes(Swept(net), k)
  {
    var b := Swept(net);
    if k < |net.nodes| && !b.nodes[k].Gone? && b.nodes[k].ConstN? && Unread(b.nodes, b.nodes[k].out) {
      assert forall j :: 0 <= j < |net.nodes| ==>
          Reads(net.nodes[j], b.nodes[k].out) == Reads(b.nodes[j], b.nodes[k].out);
    }
  }

  lemma BeyondTheNodes(net: Net)
    ensures forall k: nat :: k >= |net.nodes| ==> !Ready(net, k)
  {
    hide Blendable, ConstDriven;
  }

  /** cprop: propagate to the fixpoint, then drop the constants that float or dangle. */
  method Cprop(des: Design, schedule: (nat, nat) -> seq<nat>) returns (passes: nat, ghost settled: Net)
    requires WellNet(des.AsNet()) && Sealed(des.nexus) && des.Remembers() && Reaches(schedule)
    modifies des
    ensures KeepsObserved(old(des.AsNet()), des.AsNet()) && des.Remembers()
    ensures Equivalent(old(des.AsNet()), settled) && WellNet(settled) && forall k: nat :: !Ready(settled, k)
    ensures des.AsNet() == Swept(settled) && forall k: nat :: !Goes(des.AsNet(), k)
    ensures passes <= Weight(old(des.nodes)) + 1
  {
    hide WellNet, Remembered, Equivalent, KeepsObserved, SameObserved, Ready, Goes;
    ghost var net := des.AsNet();
    passes := Propagate(des, schedule);
    settled := des.AsNet();
    BeyondTheNodes(settled);
    var dc := new CpropDcFunctor();
    dc.Scan(des, schedule(passes, |des.nodes|));
    assert des.AsNet() == Swept(settled);
    ObservedAfter(net, settled, des.AsNet());
    forall k: nat
      ensures !Goes(des.AsNet(), k)
    {
      SweptStays(settled, k);
    }
  }
}
