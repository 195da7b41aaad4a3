/** Blending the part selects of one nexus into a concatenation
    (qflow-org/iverilog/cprop.cc:212-330). */
module PartBlend {
  import opened FourState
  import opened Netlist
  import opened Rewrites

  // ----- sorting by base -----

  predicate AllParts(nodes: seq<Node>, d: seq<nat>) {
    forall j :: 0 <= j < |d| ==> d[j] < |nodes| && nodes[d[j]].PartPV?
  }

  predicate Ascending(nodes: seq<Node>, d: seq<nat>)
    requires AllParts(nodes, d)
  {
    |d| >= 2 ==> nodes[d[0]].base <= nodes[d[1]].base && Ascending(nodes, d[1..])
  }

  function Insert(nodes: seq<Node>, k: nat, d: seq<nat>): (r: seq<nat>)
    requires k < |nodes| && nodes[k].PartPV? && AllParts(nodes, d)
    ensures AllParts(nodes, r) && r != []
    ensures multiset(r) == multiset(d) + multiset{k}
    ensures r[0] == k || (d != [] && r[0] == d[0])
    ensures Ascending(nodes, d) ==> Ascending(nodes, r)
  {
    if d == [] then [k]
    else if nodes[k].base <= nodes[d[0]].base then [k] + d
    else
      assert d == [d[0]] + d[1..];
      [d[0]] + Insert(nodes, k, d[1..])
  }

  /** The part selects by increasing base. */
  function SortByBase(nodes: seq<Node>, d: seq<nat>): (r: seq<nat>)
    requires AllParts(nodes, d)
    ensures AllParts(nodes, r) && Ascending(nodes, r)
    ensures multiset(r) == multiset(d)
  {
    if d == [] then []
    else
      assert d == [d[0]] + d[1..];
      Insert(nodes, d[0], SortByBase(nodes, d[1..]))
  }

  // ----- layout -----

  predicate AllPV(parts: seq<Node>) {
    forall j :: 0 <= j < |parts| ==> parts[j].PartPV?
  }

  function Picked(nodes: seq<Node>, d: seq<nat>): (parts: seq<Node>)
    requires AllParts(nodes, d)
    ensures |parts| == |d| && AllPV(parts)
    ensures forall j :: 0 <= j < |d| ==> parts[j] == nodes[d[j]]
  {
    seq(|d|, j requires 0 <= j < |d| => nodes[d[j]])
  }

  /** The parts start at or after off, one after the other, and end within total. */
  predicate Apart(parts: seq<Node>, off: nat, total: nat)
    requires AllPV(parts)
  {
    if parts == [] then off <= total
    else off <= parts[0].base && Apart(parts[1..], parts[0].base + parts[0].wid, total)
  }

  datatype Slot = Gap(wid: nat) | Piece(input: nat, wid: nat)

  /** What the concatenation is made of, least significant first. */
  function Layout(parts: seq<Node>, off: nat, total: nat): seq<Slot>
    requires AllPV(parts)
    decreases |parts|, if parts != [] && parts[0].base > off then 1 else 0
  {
    if parts == [] then (if off < total then [Gap(total - off)] else [])
    else if parts[0].base > off then [Gap(parts[0].base - off)] + Layout(parts, parts[0].base, total)
    else [Piece(parts[0].input, parts[0].wid)] + Layout(parts[1..], off + parts[0].wid, total)
  }

  function SlotsWidth(slots: seq<Slot>): nat {
    if slots == [] then 0 else slots[0].wid + SlotsWidth(slots[1..])
  }

  function SlotBits(slots: seq<Slot>, val: Val): Vec {
    if slots == [] then []
    else (if slots[0].Gap? then Fill(VZ, slots[0].wid) else val(slots[0].input)) + SlotBits(slots[1..], val)
  }

  lemma SlotsSplit(a: Slot, rest: seq<Slot>, val: Val)
    ensures SlotsWidth([a] + rest) == a.wid + SlotsWidth(rest)
    ensures SlotBits([a] + rest, val) == (if a.Gap? then Fill(VZ, a.wid) else val(a.input)) + SlotBits(rest, val)
  {
    assert ([a] + rest)[1..] == rest;
  }

  lemma LayoutTail(off: nat, total: nat, val: Val)
    ensures SlotsWidth(Layout([], off, total)) == if off < total then total - off else 0
    ensures SlotBits(Layout([], off, total), val) == Fill(VZ, if off < total then total - off else 0)
  {
    if off < total {
      var g := Gap(total - off);
      SlotsSplit(g, [], val);
      assert [g] + [] == [g];
    }
  }

  /** The widths of the parts and the gaps add up to the width of the signal. */
  lemma {:induction false} LayoutWidth(parts: seq<Node>, off: nat, total: nat)
    requires AllPV(parts) && Apart(parts, off, total)
    ensures off <= total && SlotsWidth(Layout(parts, off, total)) == total - off
    decreases |parts|, if parts != [] && parts[0].base > off then 1 else 0
  {
    var val: Val := _ => [];
    if parts == [] {
      LayoutTail(off, total, val);
    } else if parts[0].base > off {
      LayoutWidth(parts, parts[0].base, total);
      SlotsSplit(Gap(parts[0].base - off), Layout(parts, parts[0].base, total), val);
    } else {
      var rest := Layout(parts[1..], off + parts[0].wid, total);
      LayoutWidth(parts[1..], off + parts[0].wid, total);
      SlotsSplit(Piece(parts[0].input, parts[0].wid), rest, val);
    }
  }

  predicate Covers(p: Node, i: nat)
    requires p.PartPV?
  {
    p.base <= i < p.base + p.wid
  }

  ghost predicate Fed(parts: seq<Node>, val: Val)
    requires AllPV(parts)
  {
    forall j :: 0 <= j < |parts| ==> |val(parts[j].input)| == parts[j].wid
  }

  /** Bit i of the parts laid out from off: the bit of the part that covers it, else z. */
  function CoverBit(parts: seq<Node>, i: nat, val: Val): Bit
    requires AllPV(parts)
  {
    if parts == [] then VZ
    else if Covers(parts[0], i) then At(val(parts[0].input), i - parts[0].base, VZ)
    else CoverBit(parts[1..], i, val)
  }

  lemma AtJoined(a: Vec, b: Vec, i: nat)
    ensures At(a + b, i, VZ) == if i < |a| then a[i] else At(b, i - |a|, VZ)
  {
  }

  lemma {:induction false} NothingBelow(parts: seq<Node>, off: nat, total: nat, i: nat, val: Val)
    requires AllPV(parts) && Apart(parts, off, total) && i < off
    ensures CoverBit(parts, i, val) == VZ
    ensures forall j :: 0 <= j < |parts| ==> !Covers(parts[j], i)
  {
    if parts != [] {
      NothingBelow(parts[1..], parts[0].base + parts[0].wid, total, i, val);
      assert forall j :: 1 <= j < |parts| ==> parts[j] == parts[1..][j - 1];
    }
  }

  lemma {:induction false} LayoutBit(parts: seq<Node>, off: nat, total: nat, i: nat, val: Val)
    requires AllPV(parts) && Apart(parts, off, total) && Fed(parts, val) && off <= i
    ensures At(SlotBits(Layout(parts, off, total), val), i - off, VZ) == CoverBit(parts, i, val)
    decreases |parts|, if parts != [] && parts[0].base > off then 1 else 0
  {
    if parts == [] {
      LayoutTail(off, total, val);
    } else if parts[0].base > off {
      var base := parts[0].base;
      var rest := Layout(parts, base, total);
      SlotsSplit(Gap(base - off), rest, val);
      AtJoined(Fill(VZ, base - off), SlotBits(rest, val), i - off);
      if i < base {
        NothingBelow(parts, base, total, i, val);
      } else {
        LayoutBit(parts, base, total, i, val);
      }
    } else {
      var top := off + parts[0].wid;
      var rest := Layout(parts[1..], top, total);
      SlotsSplit(Piece(parts[0].input, parts[0].wid), rest, val);
      AtJoined(val(parts[0].input), SlotBits(rest, val), i - off);
      if i >= top {
        LayoutBit(parts[1..], top, total, i, val);
      }
    }
  }

  lemma {:induction false} CoverUnique(parts: seq<Node>, off: nat, total: nat, i: nat, val: Val)
    requires AllPV(parts) && Apart(parts, off, total)
    ensures forall j :: 0 <= j < |parts| && Covers(parts[j], i) ==>
              CoverBit(parts, i, val) == At(val(parts[j].input), i - parts[j].base, VZ)
              && i < total && forall k :: 0 <= k < |parts| && Covers(parts[k], i) ==> k == j
    ensures (forall j :: 0 <= j < |parts| ==> !Covers(parts[j], i)) ==> CoverBit(parts, i, val) == VZ
  {
    if parts != [] {
      var top := parts[0].base + parts[0].wid;
      assert forall j :: 1 <= j < |parts| ==> parts[j] == parts[1..][j - 1];
      assert forall j :: 0 <= j < |parts| - 1 ==> parts[1..][j] == parts[j + 1];
      LayoutWidth(parts[1..], top, total);
      if Covers(parts[0], i) {
        NothingBelow(parts[1..], top, total, i, val);
      } else {
        CoverUnique(parts[1..], top, total, i, val);
      }
    }
  }

  lemma {:induction false} SlotBitsWidth(parts: seq<Node>, off: nat, total: nat, val: Val)
    requires AllPV(parts) && Fed(parts, val)
    ensures |SlotBits(Layout(parts, off, total), val)| == SlotsWidth(Layout(parts, off, total))
    decreases |parts|, if parts != [] && parts[0].base > off then 1 else 0
  {
    if parts == [] {
      LayoutTail(off, total, val);
    } else if parts[0].base > off {
      SlotBitsWidth(parts, parts[0].base, total, val);
      SlotsSplit(Gap(parts[0].base - off), Layout(parts, parts[0].base, total), val);
    } else {
      SlotBitsWidth(parts[1..], off + parts[0].wid, total, val);
      SlotsSplit(Piece(parts[0].input, parts[0].wid), Layout(parts[1..], off + parts[0].wid, total), val);
    }
  }

  /** Blending is exact: the laid-out bits fill the signal, bit i is the bit of the one part
      that covers i, and where no part covers i it is z. */
  lemma BlendExact(parts: seq<Node>, total: nat, i: nat, val: Val)
    requires AllPV(parts) && Apart(parts, 0, total) && Fed(parts, val) && i < total
    ensures |SlotBits(Layout(parts, 0, total), val)| == total
    ensures forall j :: 0 <= j < |parts| && Covers(parts[j], i) ==>
              SlotBits(Layout(parts, 0, total), val)[i] == val(parts[j].input)[i - parts[j].base]
              && forall k :: 0 <= k < |parts| && Covers(parts[k], i) ==> k == j
    ensures (forall j :: 0 <= j < |parts| ==> !Covers(parts[j], i)) ==> SlotBits(Layout(parts, 0, total), val)[i] == VZ
  {
    LayoutWidth(parts, 0, total);
    SlotBitsWidth(parts, 0, total, val);
    LayoutBit(parts, 0, total, i, val);
    CoverUnique(parts, 0, total, i, val);
  }

  // ----- pins, gap nets and gap constants -----

  /** Each gap takes the next free nexus. */
  function Pins(slots: seq<Slot>, next: nat): seq<nat> {
    if slots == [] then []
    else if slots[0].Gap? then [next] + Pins(slots[1..], next + 1)
    else [slots[0].input] + Pins(slots[1..], next)
  }

  function GapNexus(slots: seq<Slot>): seq<NexusInfo> {
    if slots == [] then []
    else (if slots[0].Gap? then [NexusInfo(slots[0].wid, Wire, Nobody, false)] else []) + GapNexus(slots[1..])
  }

  function GapConsts(slots: seq<Slot>, next: nat): seq<Node> {
    if slots == [] then []
    else if slots[0].Gap? then [ConstN(next, Fill(VZ, slots[0].wid))] + GapConsts(slots[1..], next + 1)
    else GapConsts(slots[1..], next)
  }

  lemma {:induction false} PinsCarrySlots(slots: seq<Slot>, nexus: seq<NexusInfo>, val: Val)
    requires Quiet(nexus + GapNexus(slots), |nexus|, val)
    ensures CatLow(Pins(slots, |nexus|), val) == SlotBits(slots, val)
  {
    if slots != [] {
      if slots[0].Gap? {
        var grown := nexus + [NexusInfo(slots[0].wid, Wire, Nobody, false)];
        assert nexus + GapNexus(slots) == grown + GapNexus(slots[1..]);
        PinsCarrySlots(slots[1..], grown, val);
        assert (nexus + GapNexus(slots))[|nexus|].wid == slots[0].wid;
        CatLowStep(|nexus|, Pins(slots[1..], |nexus| + 1), val);
      } else {
        assert GapNexus(slots) == GapNexus(slots[1..]);
        PinsCarrySlots(slots[1..], nexus, val);
        CatLowStep(slots[0].input, Pins(slots[1..], |nexus|), val);
      }
    }
  }

  predicate SlotKnown(s: Slot, nexus: seq<NexusInfo>) {
    s.Piece? ==> s.input < |nexus| && nexus[s.input].wid == s.wid
  }

  predicate SlotsKnown(slots: seq<Slot>, nexus: seq<NexusInfo>) {
    slots == [] || (SlotKnown(slots[0], nexus) && SlotsKnown(slots[1..], nexus))
  }

  lemma {:induction false} KnownGrows(slots: seq<Slot>, nexus: seq<NexusInfo>, n: NexusInfo)
    requires SlotsKnown(slots, nexus)
    ensures SlotsKnown(slots, nexus + [n])
  {
    if slots != [] {
      KnownGrows(slots[1..], nexus, n);
    }
  }

  lemma {:induction false} PinsWidth(slots: seq<Slot>, nexus: seq<NexusInfo>)
    requires SlotsKnown(slots, nexus)
    ensures InRange(Pins(slots, |nexus|), |nexus| + |GapNexus(slots)|)
    ensures InsWidth(Pins(slots, |nexus|), nexus + GapNexus(slots)) == SlotsWidth(slots)
  {
    if slots != [] {
      if slots[0].Gap? {
        var grown := nexus + [NexusInfo(slots[0].wid, Wire, Nobody, false)];
        assert nexus + GapNexus(slots) == grown + GapNexus(slots[1..]);
        KnownGrows(slots[1..], nexus, NexusInfo(slots[0].wid, Wire, Nobody, false));
        PinsWidth(slots[1..], grown);
      } else {
        assert GapNexus(slots) == GapNexus(slots[1..]);
        PinsWidth(slots[1..], nexus);
      }
    }
  }

  /** The gap constants are well formed and drive the new nexuses only. */
  lemma {:induction false} GapConstsWell(slots: seq<Slot>, nexus: seq<NexusInfo>)
    ensures WellNet(Net(GapConsts(slots, |nexus|), nexus + GapNexus(slots)))
    ensures forall j :: 0 <= j < |GapConsts(slots, |nexus|)| ==>
              Floating(GapConsts(slots, |nexus|)[j]) && |nexus| <= GapConsts(slots, |nexus|)[j].out
  {
    if slots != [] {
      if slots[0].Gap? {
        var grown := nexus + [NexusInfo(slots[0].wid, Wire, Nobody, false)];
        assert nexus + GapNexus(slots) == grown + GapNexus(slots[1..]);
        GapConstsWell(slots[1..], grown);
      } else {
        assert GapNexus(slots) == GapNexus(slots[1..]);
        GapConstsWell(slots[1..], nexus);
      }
    }
  }

  lemma {:induction false} GapNexusPlain(slots: seq<Slot>)
    ensures forall j :: 0 <= j < |GapNexus(slots)| ==>
              GapNexus(slots)[j].pull == Wire && GapNexus(slots)[j].outside == Nobody
  {
    if slots != [] {
      GapNexusPlain(slots[1..]);
    }
  }

  // ----- deleting the part selects -----

  function Erase(nodes: seq<Node>, d: seq<nat>): (r: seq<Node>)
    requires forall j :: 0 <= j < |d| ==> d[j] < |nodes|
    ensures |r| == |nodes|
    ensures forall k :: 0 <= k < |nodes| ==> r[k] == if k in d then Gone else nodes[k]
  {
    seq(|nodes|, k requires 0 <= k < |nodes| => if k in d then Gone else nodes[k])
  }

  lemma {:induction false} DriveSame(a: seq<Node>, b: seq<Node>, x: nat, i: nat, val: Val, w: World)
    requires |a| == |b|
    requires forall k: nat :: k < |a| ==> Put(a[k], x, i, val, w) == Put(b[k], x, i, val, w)
    ensures DriveBit(a, x, i, val, w) == DriveBit(b, x, i, val, w)
    decreases |a|
  {
    if |a| > 0 {
      var m := |a| - 1;
      assert forall k: nat :: k < m ==> a[..m][k] == a[k] && b[..m][k] == b[k];
      DriveSame(a[..m], b[..m], x, i, val, w);
    }
  }

  // ----- splicing a concatenation in -----

  /** The drivers of x make way for a concatenation of the slots; each gap gets a z constant. */
  function Spliced(net: Net, x: nat, slots: seq<Slot>): Net {
    var n := |net.nexus|;
    Net(Erase(net.nodes, Drivers(net.nodes, x)) + GapConsts(slots, n) + [ConcatN(x, Pins(slots, n), false)],
        net.nexus + GapNexus(slots))
  }

  ghost predicate Measured(net: Net, val: Val) {
    forall x: nat :: x < |net.nexus| ==> |val(x)| == net.nexus[x].wid
  }

  ghost predicate SlotsResolve(net: Net, x: nat, slots: seq<Slot>, i: nat, val: Val, w: World) {
    At(SlotBits(slots, val), i, VZ) == DriveBit(net.nodes, x, i, val, w)
  }

  /** The slots carry what the drivers of x resolve to. */
  ghost predicate Resolving(net: Net, x: nat, slots: seq<Slot>) {
    forall val: Val, w: World, i: nat :: Measured(net, val) ==> SlotsResolve(net, x, slots, i, val, w)
  }

  lemma SplicedWell(net: Net, x: nat, slots: seq<Slot>)
    requires WellNet(net) && x < |net.nexus|
    requires SlotsKnown(slots, net.nexus) && SlotsWidth(slots) == net.nexus[x].wid
    ensures WellNet(Spliced(net, x, slots))
  {
    var b := Spliced(net, x, slots);
    PinsWidth(slots, net.nexus);
    GapConstsWell(slots, net.nexus);
    forall k | 0 <= k < |b.nodes|
      ensures WellNode(b.nodes[k], b.nexus)
    {
      if k < |net.nodes| {
        assert WellNode(net.nodes[k], net.nexus);
        WellNodeGrows(net.nodes[k], net.nexus, GapNexus(slots));
      } else if k < |b.nodes| - 1 {
        assert b.nodes[k] == GapConsts(slots, |net.nexus|)[k - |net.nodes|];
      }
    }
  }

  lemma SplicedDriveSplit(net: Net, x: nat, slots: seq<Slot>, y: nat, i: nat, val: Val, w: World)
    ensures DriveBit(Spliced(net, x, slots).nodes, y, i, val, w)
            == Resolve(DriveBit(Erase(net.nodes, Drivers(net.nodes, x)), y, i, val, w),
                       if y == x then At(CatLow(Pins(slots, |net.nexus|), val), i, VZ) else VZ)
  {
    var n := |net.nexus|;
    var kept := Erase(net.nodes, Drivers(net.nodes, x));
    var zs := GapConsts(slots, n);
    var c := ConcatN(x, Pins(slots, n), false);
    DriveAppend(kept + zs, [c], y, i, val, w);
    DriveAppend(kept, zs, y, i, val, w);
    DriveOne(c, y, i, val, w);
    GapConstsWell(slots, net.nexus);
    DriveNothing(zs, y, i, val, w);
    ResolveMonoid(DriveBit(kept, y, i, val, w), VZ, VZ);
  }

  lemma SplicedDrive(net: Net, x: nat, slots: seq<Slot>, y: nat, i: nat, val: Val, w: World)
    requires y < |net.nexus|
    requires Quiet(net.nexus + GapNexus(slots), |net.nexus|, val) && SlotsResolve(net, x, slots, i, val, w)
    ensures DriveBit(Spliced(net, x, slots).nodes, y, i, val, w) == DriveBit(net.nodes, y, i, val, w)
  {
    var d := Drivers(net.nodes, x);
    var kept := Erase(net.nodes, d);
    SplicedDriveSplit(net, x, slots, y, i, val, w);
    if y == x {
      forall k: nat | k < |kept|
        ensures Put(kept[k], x, i, val, w) == VZ
      {
        if Drives(net.nodes[k], x) {
          DriversComplete(net.nodes, x, k);
        }
      }
      DriveNothing(kept, x, i, val, w);
      PinsCarrySlots(slots, net.nexus, val);
    } else {
      forall k: nat | k < |kept|
        ensures Put(kept[k], y, i, val, w) == Put(net.nodes[k], y, i, val, w)
      {
        if k in d {
          assert Drives(net.nodes[k], x);
        }
      }
      DriveSame(kept, net.nodes, y, i, val, w);
    }
  }

  lemma ErasedDrive(net: Net, d: seq<nat>, y: nat, i: nat, val: Val, w: World)
    requires WellNet(net) && |net.nexus| <= y
    requires forall j :: 0 <= j < |d| ==> d[j] < |net.nodes|
    ensures DriveBit(Erase(net.nodes, d), y, i, val, w) == VZ
  {
    forall k: nat | k < |net.nodes|
      ensures Put(Erase(net.nodes, d)[k], y, i, val, w) == VZ
    {
      assert WellNode(net.nodes[k], net.nexus);
    }
    DriveNothing(Erase(net.nodes, d), y, i, val, w);
  }

  /** A new nexus has only its z constant, so it settles to z and to nothing else. */
  lemma GapSettles(net: Net, x: nat, slots: seq<Slot>, y: nat, val: Val, w: World)
    requires WellNet(net) && x < |net.nexus| <= y < |Spliced(net, x, slots).nexus|
    ensures Settled(Spliced(net, x, slots), y, val, w) <==> val(y) == Fill(VZ, Spliced(net, x, slots).nexus[y].wid)
  {
    var b := Spliced(net, x, slots);
    GapNexusPlain(slots);
    assert b.nexus[y] == GapNexus(slots)[y - |net.nexus|];
    forall i: nat
      ensures DriveBit(b.nodes, y, i, val, w) == VZ
    {
      SplicedDriveSplit(net, x, slots, y, i, val, w);
      ErasedDrive(net, Drivers(net.nodes, x), y, i, val, w);
    }
    assert forall i: nat :: NexusBit(b, y, i, val, w) == VZ;
  }

  lemma SplicedSettles(net: Net, x: nat, slots: seq<Slot>, y: nat, val: Val, w: World)
    requires y < |net.nexus| && Resolving(net, x, slots) && Measured(net, val)
    requires Quiet(net.nexus + GapNexus(slots), |net.nexus|, val)
    ensures Settled(net, y, val, w) <==> Settled(Spliced(net, x, slots), y, val, w)
  {
    var b := Spliced(net, x, slots);
    assert b.nexus[y] == net.nexus[y];
    forall i: nat
      ensures NexusBit(net, y, i, val, w) == NexusBit(b, y, i, val, w)
    {
      assert SlotsResolve(net, x, slots, i, val, w);
      SplicedDrive(net, x, slots, y, i, val, w);
    }
  }

  lemma SplicedEquivalent(net: Net, x: nat, slots: seq<Slot>)
    requires WellNet(net) && x < |net.nexus| && Resolving(net, x, slots)
    ensures Equivalent(net, Spliced(net, x, slots))
  {
    var b := Spliced(net, x, slots);
    forall val: Val, w: World
      ensures SameValuations(net, b, val, w)
    {
      forall y: nat | |net.nexus| <= y < |b.nexus|
        ensures Settled(b, y, val, w) <==> val(y) == Fill(VZ, b.nexus[y].wid)
      {
        GapSettles(net, x, slots, y, val, w);
      }
      if !Measured(net, val) {
        var y: nat :| y < |net.nexus| && |val(y)| != net.nexus[y].wid;
        assert b.nexus[y] == net.nexus[y];
        assert !Settled(net, y, val, w) && !Settled(b, y, val, w);
      } else if Quiet(b.nexus, |net.nexus|, val) {
        forall y: nat | y < |net.nexus|
          ensures Settled(net, y, val, w) <==> Settled(b, y, val, w)
        {
          SplicedSettles(net, x, slots, y, val, w);
        }
      } else {
        var y: nat :| |net.nexus| <= y < |b.nexus| && val(y) != Fill(VZ, b.nexus[y].wid);
        assert !Settled(b, y, val, w);
      }
    }
  }

  // ----- lpm_part_select -----

  /** s lists the drivers of x, all of them part selects. */
  predicate Lists(nodes: seq<Node>, x: nat, s: seq<nat>) {
    && AllParts(nodes, s)
    && (forall j :: 0 <= j < |s| ==> Drives(nodes[s[j]], x))
    && (forall k: nat :: k < |nodes| && Drives(nodes[k], x) ==> k in s)
  }

  lemma SortedLists(nodes: seq<Node>, x: nat)
    requires AllParts(nodes, Drivers(nodes, x))
    ensures Lists(nodes, x, SortByBase(nodes, Drivers(nodes, x)))
  {
    var d := Drivers(nodes, x);
    var s := SortByBase(nodes, d);
    forall j | 0 <= j < |s|
      ensures Drives(nodes[s[j]], x)
    {
      assert s[j] in multiset(s);
    }
    forall k: nat | k < |nodes| && Drives(nodes[k], x)
      ensures k in s
    {
      DriversComplete(nodes, x, k);
      assert k in multiset(d);
    }
  }

  /** The part selects of x resolve to the bit of the part that covers the position. */
  lemma PartsResolve(nodes: seq<Node>, x: nat, s: seq<nat>, total: nat, i: nat, val: Val, w: World)
    requires Lists(nodes, x, s) && Apart(Picked(nodes, s), 0, total)
    ensures DriveBit(nodes, x, i, val, w) == CoverBit(Picked(nodes, s), i, val)
  {
    var parts := Picked(nodes, s);
    CoverUnique(parts, 0, total, i, val);
    if j: nat :| j < |parts| && Covers(parts[j], i) {
      forall k: nat | k < |nodes| && k != s[j]
        ensures Put(nodes[k], x, i, val, w) == VZ
      {
        if Drives(nodes[k], x) {
          var m: nat :| m < |s| && s[m] == k;
          assert !Covers(parts[m], i);
        }
      }
      DriveAlone(nodes, s[j], x, i, val, w);
    } else {
      forall k: nat | k < |nodes|
        ensures Put(nodes[k], x, i, val, w) == VZ
      {
        if Drives(nodes[k], x) {
          var m: nat :| m < |s| && s[m] == k;
          assert !Covers(parts[m], i);
        }
      }
      DriveNothing(nodes, x, i, val, w);
    }
  }

  predicate Blendable(net: Net, x: nat) {
    && x < |net.nexus| && net.nexus[x].pull == Wire && net.nexus[x].outside != Variable
    && var d := Drivers(net.nodes, x);
       && |d| >= 2 && AllParts(net.nodes, d)
       && Apart(Picked(net.nodes, SortByBase(net.nodes, d)), 0, net.nexus[x].wid)
  }

  function BlendSlots(net: Net, x: nat): seq<Slot>
    requires Blendable(net, x)
  {
    Layout(Picked(net.nodes, SortByBase(net.nodes, Drivers(net.nodes, x))), 0, net.nexus[x].wid)
  }

  function Blended(net: Net, x: nat): Net
    requires Blendable(net, x)
  {
    Spliced(net, x, BlendSlots(net, x))
  }

  lemma KnownStep(s: Slot, rest: seq<Slot>, nexus: seq<NexusInfo>)
    requires SlotsKnown(rest, nexus) && SlotKnown(s, nexus)
    ensures SlotsKnown([s] + rest, nexus)
  {
    assert ([s] + rest)[1..] == rest;
  }

  lemma {:induction false} LayoutKnown(parts: seq<Node>, off: nat, total: nat, nexus: seq<NexusInfo>)
    requires AllPV(parts)
    requires forall j :: 0 <= j < |parts| ==> parts[j].input < |nexus| && nexus[parts[j].input].wid == parts[j].wid
    ensures SlotsKnown(Layout(parts, off, total), nexus)
    decreases |parts|, if parts != [] && parts[0].base > off then 1 else 0
  {
    if parts == [] {
      KnownStep(Gap(if off < total then total - off else 0), [], nexus);
      assert [Gap(if off < total then total - off else 0)] + [] == [Gap(if off < total then total - off else 0)];
    } else if parts[0].base > off {
      LayoutKnown(parts, parts[0].base, total, nexus);
      KnownStep(Gap(parts[0].base - off), Layout(parts, parts[0].base, total), nexus);
    } else {
      LayoutKnown(parts[1..], off + parts[0].wid, total, nexus);
      KnownStep(Piece(parts[0].input, parts[0].wid), Layout(parts[1..], off + parts[0].wid, total), nexus);
    }
  }

  lemma LayoutResolves(net: Net, x: nat, s: seq<nat>, total: nat)
    requires WellNet(net) && Lists(net.nodes, x, s) && Apart(Picked(net.nodes, s), 0, total)
    ensures var slots := Layout(Picked(net.nodes, s), 0, total);
            Resolving(net, x, slots) && SlotsKnown(slots, net.nexus) && SlotsWidth(slots) == total
  {
    var parts := Picked(net.nodes, s);
    var slots := Layout(parts, 0, total);
    forall j | 0 <= j < |parts|
      ensures parts[j].input < |net.nexus| && net.nexus[parts[j].input].wid == parts[j].wid
    {
      assert WellNode(net.nodes[s[j]], net.nexus);
    }
    forall val: Val, w: World, i: nat | Measured(net, val)
      ensures SlotsResolve(net, x, slots, i, val, w)
    {
      LayoutBit(parts, 0, total, i, val);
      PartsResolve(net.nodes, x, s, total, i, val, w);
    }
    LayoutWidth(parts, 0, total);
    LayoutKnown(parts, 0, total, net.nexus);
  }

  lemma BlendEquivalent(net: Net, x: nat)
    requires WellNet(net) && Blendable(net, x)
    ensures Equivalent(net, Blended(net, x)) && WellNet(Blended(net, x))
  {
    var s := SortByBase(net.nodes, Drivers(net.nodes, x));
    SortedLists(net.nodes, x);
    LayoutResolves(net, x, s, net.nexus[x].wid);
    SplicedWell(net, x, BlendSlots(net, x));
    SplicedEquivalent(net, x, BlendSlots(net, x));
  }
}
