/** What drives a nexus, by its list of links, and the answer that a nexus remembers
    (qflow-org/iverilog/link_const.cc, qflow-org/iverilog/net_link.cc). */
module NexusDrivers {
  import opened FourState
  import Netlist

  datatype Dir = Passive | Input | Output
  datatype NetType = Plain | Reg | ImplicitReg | Integer | Tri0 | Tri1 | Supply0 | Supply1
  datatype Port = NotAPort | PInput | POutput | PInout

  /** `lref`: a procedural assignment or force targets the signal. `root`: its scope has no parent. */
  datatype Obj =
    | Sig(lref: bool, typ: NetType, wid: nat, root: bool, port: Port)
    | Tran
    | ConstObj(bits: Vec)
    | PartSelect(pv: bool, base: nat, wid: nat)
    | Another

  datatype Link = Link(dir: Dir, obj: Obj, pin: nat)

  function SigDir(typ: NetType): Dir {
    match typ
    case Plain => Passive
    case Integer => Passive
    case _ => Output
  }

  /** The directions that the constructors of the objects give their pins, on a nexus of width w. */
  predicate WellLink(l: Link, w: nat) {
    match l.obj
    case Sig(_, typ, wid, _, _) => l.dir == SigDir(typ) && wid == w
    case Tran => l.dir == if l.pin < 2 then Passive else Input
    case ConstObj(bits) => l.dir == Output && l.pin == 0 && |bits| == w
    case PartSelect(pv, _, _) => l.dir == if l.pin == (if pv then 1 else 0) then Output else Input
    case Another => true
  }

  predicate WellLinks(links: seq<Link>, w: nat) {
    forall k :: 0 <= k < |links| ==> WellLink(links[k], w)
  }

  /** Part selects drive bits that the nexus has. */
  predicate Contained(links: seq<Link>, w: nat) {
    forall k :: 0 <= k < |links| && links[k].obj.PartSelect? && links[k].obj.pv && links[k].pin == 1 ==>
      links[k].obj.base + links[k].obj.wid <= w
  }

  // ----- what the links say -----

  predicate Pulls(l: Link) {
    l.obj.Sig? && l.obj.typ in {Tri0, Tri1, Supply0, Supply1}
  }

  function PullBit(l: Link): Bit
    requires Pulls(l)
  {
    if l.obj.typ == Supply0 || l.obj.typ == Tri0 then V0 else V1
  }

  /** A link that keeps the nexus from being constant. */
  predicate Blocks(l: Link) {
    || (l.obj.Sig? && l.obj.lref)
    || l.obj.Tran?
    || (l.dir == Passive && l.obj.Sig? && l.obj.root && l.obj.port != NotAPort && l.obj.port != POutput)
    || (l.dir == Output && !Pulls(l) && !l.obj.ConstObj?)
  }

  /** A plain signal of a root module that is one of its input or inout ports. */
  predicate FromOutside(l: Link) {
    l.dir == Passive && l.obj.Sig? && l.obj.root && (l.obj.port == PInput || l.obj.port == PInout)
  }

  /** A constant, or a pull that counts as one. */
  predicate Drive(l: Link) {
    l.obj.ConstObj? || Pulls(l)
  }

  function DriveBit(l: Link): Bit
    requires Drive(l)
  {
    if l.obj.ConstObj? then At(l.obj.bits, 0, VZ) else PullBit(l)
  }

  function DriveVec(l: Link): Vec
    requires Drive(l)
  {
    if l.obj.ConstObj? then l.obj.bits else Fill(PullBit(l), l.obj.wid)
  }

  function Count(links: seq<Link>): nat {
    if |links| == 0 then 0
    else Count(links[..|links| - 1]) + (if Drive(links[|links| - 1]) then 1 else 0)
  }

  predicate AllConstant(links: seq<Link>) {
    (forall k :: 0 <= k < |links| ==> !Blocks(links[k])) && Count(links) <= 1
  }

  lemma {:induction false} CountZero(links: seq<Link>)
    ensures Count(links) == 0 <==> forall k :: 0 <= k < |links| ==> !Drive(links[k])
    decreases |links|
  {
    if |links| > 0 {
      CountZero(links[..|links| - 1]);
    }
  }

  lemma {:induction false} CountAppend(a: seq<Link>, b: seq<Link>)
    ensures Count(a + b) == Count(a) + Count(b)
    decreases |b|
  {
    if |b| == 0 {
      assert a + b == a;
    } else {
      CountAppend(a, b[..|b| - 1]);
      assert (a + b)[..|a + b| - 1] == a + b[..|b| - 1];
    }
  }

  /** At most one driver is counted exactly when no two links drive. */
  lemma {:induction false} CountOne(links: seq<Link>)
    ensures Count(links) <= 1 <==> forall i, j :: 0 <= i < j < |links| ==> !(Drive(links[i]) && Drive(links[j]))
    decreases |links|
  {
    if |links| > 0 {
      var m := |links| - 1;
      CountOne(links[..m]);
      CountZero(links[..m]);
      assert forall k :: 0 <= k < m ==> links[..m][k] == links[k];
    }
  }

  function DrivenBit(links: seq<Link>): Bit {
    if |links| == 0 then VZ
    else if Drive(links[|links| - 1]) then DriveBit(links[|links| - 1])
    else DrivenBit(links[..|links| - 1])
  }

  /** The driver's vector, or z of the signal's width, or nothing when there is no signal. */
  function DrivenVec(links: seq<Link>): Vec {
    if |links| == 0 then []
    else
      var l := links[|links| - 1];
      if Drive(l) then DriveVec(l)
      else if l.obj.Sig? && Count(links[..|links| - 1]) == 0 then Fill(VZ, l.obj.wid)
      else DrivenVec(links[..|links| - 1])
  }

  lemma {:induction false} DrivenBitZ(links: seq<Link>)
    requires Count(links) == 0
    ensures DrivenBit(links) == VZ
    decreases |links|
  {
    if |links| > 0 {
      DrivenBitZ(links[..|links| - 1]);
    }
  }

  /** The one-bit answer is bit 0 of the vector answer. */
  lemma {:induction false} BitIsBitZero(links: seq<Link>, w: nat)
    requires WellLinks(links, w) && w > 0
    ensures DrivenBit(links) == At(DrivenVec(links), 0, VZ)
    decreases |links|
  {
    if |links| > 0 {
      var m := |links| - 1;
      assert WellLink(links[m], w);
      BitIsBitZero(links[..m], w);
      if Count(links[..m]) == 0 {
        DrivenBitZ(links[..m]);
      }
    }
  }

  // ----- the remembered answer -----

  /** NO_GUESS, V0 to Vz, VAR. */
  datatype Guess = NoGuess | Known4(b: Bit) | Var

  /** What is remembered is what a fresh look at the links would find. */
  predicate Honest(g: Guess, links: seq<Link>) {
    match g
    case NoGuess => true
    case Var => !AllConstant(links)
    case Known4(b) => AllConstant(links) && b == DrivenBit(links)
  }

  lemma PrefixStep(links: seq<Link>, k: nat)
    requires k < |links|
    ensures Count(links[..k + 1]) == Count(links[..k]) + if Drive(links[k]) then 1 else 0
    ensures DrivenBit(links[..k + 1]) == if Drive(links[k]) then DriveBit(links[k]) else DrivenBit(links[..k])
    ensures DrivenVec(links[..k + 1])
            == if Drive(links[k]) then DriveVec(links[k])
               else if links[k].obj.Sig? && Count(links[..k]) == 0 then Fill(VZ, links[k].obj.wid)
               else DrivenVec(links[..k])
  {
    assert links[..k + 1][..k] == links[..k];
  }

  lemma {:induction false} CountPrefix(links: seq<Link>, k: nat)
    requires k <= |links|
    ensures Count(links[..k]) <= Count(links)
    decreases |links| - k
  {
    if k < |links| {
      PrefixStep(links, k);
      CountPrefix(links, k + 1);
    } else {
      assert links[..k] == links;
    }
  }

  lemma OnlyDriver(links: seq<Link>, k: nat)
    requires k < |links| && Drive(links[k]) && Count(links) <= 1
    ensures Count(links[..k]) == 0 && DrivenBit(links[..k]) == VZ
  {
    PrefixStep(links, k);
    CountPrefix(links, k + 1);
    DrivenBitZ(links[..k]);
  }

  // ----- coverage -----

  /** A variable, a driving part select that contains the bit, or any other driving node. */
  predicate CoversBit(l: Link, i: nat) {
    l.dir == Output &&
    match l.obj
    case Sig(_, typ, _, _, _) => typ == Reg || typ == Integer
    case PartSelect(pv, base, wid) => if pv then l.pin == 1 && base <= i < base + wid else l.pin == 0
    case _ => true
  }

  /** A part select marks its range. */
  method SetRange(mask: seq<bool>, base: nat, wid: nat) returns (r: seq<bool>)
    requires base + wid <= |mask|
    ensures |r| == |mask|
    ensures forall i :: 0 <= i < |r| ==> r[i] == (mask[i] || base <= i < base + wid)
  {
    r := mask;
    for idx := 0 to wid
      invariant |r| == |mask|
      invariant forall i :: 0 <= i < |r| ==> r[i] == (mask[i] || base <= i < base + idx)
    {
      var bit := idx + base;
      r := r[bit := true];
    }
  }

  lemma MaskStep(before: seq<bool>, mask: seq<bool>, links: seq<Link>, k: nat, w: nat)
    requires k < |links| && |before| == |mask| == w
    requires forall i :: 0 <= i < w ==> (before[i] <==> exists j :: 0 <= j < k && CoversBit(links[j], i))
    requires forall i :: 0 <= i < w ==> mask[i] == (before[i] || CoversBit(links[k], i))
    ensures forall i :: 0 <= i < w ==> (mask[i] <==> exists j :: 0 <= j < k + 1 && CoversBit(links[j], i))
  {
  }

  /** The order of the links does not matter to what is driven. */
  lemma CoverageIgnoresOrder(a: seq<Link>, b: seq<Link>, i: nat)
    requires multiset(a) == multiset(b)
    ensures (exists k :: 0 <= k < |a| && CoversBit(a[k], i)) <==> exists k :: 0 <= k < |b| && CoversBit(b[k], i)
  {
    if k :| 0 <= k < |a| && CoversBit(a[k], i) {
      assert a[k] in multiset(b);
      var j :| 0 <= j < |b| && b[j] == a[k];
      assert CoversBit(b[j], i);
    }
    if k :| 0 <= k < |b| && CoversBit(b[k], i) {
      assert b[k] in multiset(a);
      var j :| 0 <= j < |a| && a[j] == b[k];
      assert CoversBit(a[j], i);
    }
  }

  /** A variable of type integer is linked passively, so no link of one is ever seen to cover a bit. */
  lemma IntegersCoverNothing(l: Link, w: nat, i: nat)
    requires WellLink(l, w) && l.obj.Sig? && l.obj.typ == Integer
    ensures !CoversBit(l, i)
  {
  }

  // ----- what joining does to the remembered answer -----

  lemma {:induction false} DrivenBitAppend(a: seq<Link>, b: seq<Link>)
    ensures DrivenBit(a + b) == if Count(b) > 0 then DrivenBit(b) else DrivenBit(a)
    decreases |b|
  {
    if |b| == 0 {
      assert a + b == a;
    } else {
      DrivenBitAppend(a, b[..|b| - 1]);
      assert (a + b)[..|a + b| - 1] == a + b[..|b| - 1];
    }
  }

  lemma BlocksAppend(a: seq<Link>, b: seq<Link>)
    ensures (forall k :: 0 <= k < |a + b| ==> !Blocks((a + b)[k]))
            <==> (forall k :: 0 <= k < |a| ==> !Blocks(a[k])) && (forall k :: 0 <= k < |b| ==> !Blocks(b[k]))
  {
    forall k | 0 <= k < |a + b|
      ensures (a + b)[k] == if k < |a| then a[k] else b[k - |a|]
    {
    }
    assert forall k :: 0 <= k < |a| ==> (a + b)[k] == a[k];
    assert forall k :: 0 <= k < |b| ==> (a + b)[k + |a|] == b[k];
  }

  /** The enable pin of a tran: an input link that keeps a nexus from being constant. */
  predicate Enable(l: Link) {
    l.dir == Input && l.obj.Tran?
  }

  /** Any other input link neither drives nor blocks, so it may come and go unnoticed. */
  lemma InputEffect(a: seq<Link>, b: seq<Link>, l: Link, w: nat)
    requires WellLink(l, w) && l.dir == Input
    ensures AllConstant(a + [l] + b) == (AllConstant(a + b) && !Enable(l))
    ensures DrivenBit(a + [l] + b) == DrivenBit(a + b)
  {
    BlocksAppend(a, [l]);
    BlocksAppend(a + [l], b);
    BlocksAppend(a, b);
    assert [l][..0] == [];
    CountAppend(a, [l]);
    CountAppend(a + [l], b);
    CountAppend(a, b);
    DrivenBitAppend(a, [l]);
    DrivenBitAppend(a + [l], b);
    DrivenBitAppend(a, b);
  }

  /** The guess after connect: another nexus that answered z is taken to drive nothing. */
  function Joined(g: Guess, links: seq<Link>, other: Guess): Guess {
    if links == [] then other
    else if other != Known4(VZ) then NoGuess
    else g
  }

  /** When the kept guess is still right: at most one driver on the two nexuses together. */
  predicate StaysHonest(g: Guess, links: seq<Link>, other: Guess, otherLinks: seq<Link>) {
    links == [] || other != Known4(VZ) || !g.Known4? || Count(links) + Count(otherLinks) <= 1
  }

  lemma JoinExactness(g: Guess, a: seq<Link>, h: Guess, b: seq<Link>, w: nat)
    requires WellLinks(a, w) && WellLinks(b, w) && Honest(g, a) && Honest(h, b)
    ensures Honest(Joined(g, a, h), a + b) <==> StaysHonest(g, a, h, b)
  {
    BlocksAppend(a, b);
    CountAppend(a, b);
    DrivenBitAppend(a, b);
    if a == [] {
      assert a + b == b;
    }
    if Count(a) == 0 {
      DrivenBitZ(a);
    }
  }

  /** A pulled-up net that has answered 1, joined to a constant whose low bit is z: the kept
      answer says constant, a fresh look would not. */
  lemma JoinMayKeepAStaleAnswer(w: nat)
    requires w > 0
    ensures exists a: seq<Link>, b: seq<Link> ::
              && WellLinks(a, w) && WellLinks(b, w) && Honest(Known4(V1), a) && Honest(Known4(VZ), b)
              && Joined(Known4(V1), a, Known4(VZ)) == Known4(V1) && !AllConstant(a + b)
  {
    var a := [Link(Output, Sig(false, Tri1, w, false, NotAPort), 0)];
    var b := [Link(Output, ConstObj(Fill(VZ, w)), 0)];
    assert a[..0] == [] && b[..0] == [];
    CountAppend(a, b);
    assert Honest(Known4(V1), a) && Honest(Known4(VZ), b);
  }

  /** The enable of a tran linked to a pulled-up net that has answered 1: an input keeps the answer,
      and a fresh look would not give it. */
  lemma EnableKeepsAStaleAnswer(w: nat)
    ensures exists a: seq<Link>, l: Link ::
              && WellLinks(a, w) && WellLink(l, w) && Enable(l) && a != [] && Honest(Known4(V1), a)
              && !Honest(Known4(V1), a + [l])
  {
    var a := [Link(Output, Sig(false, Tri1, w, false, NotAPort), 0)];
    var l := Link(Input, Tran, 2);
    assert a[..0] == [];
    assert WellLinks(a, w) && WellLink(l, w) && Enable(l);
    assert Count(a) == 1 && AllConstant(a) && DrivenBit(a) == V1;
    assert Blocks((a + [l])[1]) && !AllConstant(a + [l]);
  }

  class Nexus {
    var links: seq<Link>
    var driven: Guess

    constructor ()
      ensures links == [] && driven == NoGuess
    {
      links := [];
      driven := NoGuess;
    }

    /** A nexus as it stands after some joining and asking. */
    constructor On(links: seq<Link>, driven: Guess)
      ensures this.links == links && this.driven == driven
    {
      this.links := links;
      this.driven := driven;
    }

    /** The links are as their objects make them, and the remembered answer is right. */
    predicate Valid(w: nat)
      reads this
    {
      WellLinks(links, w) && Honest(driven, links)
    }

    /** True exactly when a fresh look would find constants only and at most one of them,
        whatever was asked before. */
    method DriversConstant(ghost w: nat) returns (r: bool)
      requires Valid(w)
      modifies this`driven
      ensures Valid(w) && r == AllConstant(links)
      ensures (exists k :: 0 <= k < |links| && FromOutside(links[k])) ==> !r
      ensures r <==> driven != Var
    {
      if driven == Var {
        return false;
      }
      if driven != NoGuess {
        return true;
      }
      var constantDrivers := 0;
      for k := 0 to |links|
        invariant constantDrivers == Count(links[..k])
        invariant forall j :: 0 <= j < k ==> !Blocks(links[j])
        invariant driven != Var
        invariant driven.Known4? ==> constantDrivers >= 1
        invariant driven.Known4? && constantDrivers == 1 ==> driven.b == DrivenBit(links[..k])
      {
        var l := links[k];
        PrefixStep(links, k);
        assert WellLink(l, w);
        if l.obj.Sig? && l.obj.lref {
          driven := Var;
          return false;
        }
        if l.obj.Tran? {
          driven := Var;
          return false;
        }
        if l.dir == Input {
          continue;
        }
        if l.dir == Passive {
          if !l.obj.Sig? || !l.obj.root || l.obj.port == NotAPort || l.obj.port == POutput {
            continue;
          }
          driven := Var;
          return false;
        }
        if Pulls(l) {
          constantDrivers := constantDrivers + 1;
          driven := Known4(PullBit(l));
          continue;
        }
        if !l.obj.ConstObj? {
          driven := Var;
          return false;
        }
        constantDrivers := constantDrivers + 1;
      }
      assert links[..|links|] == links;
      if constantDrivers > 1 {
        driven := Var;
        return false;
      }
      return true;
    }

    /** After drivers_constant said yes: the bit of the only driver, remembered. */
    method DrivenValue(ghost w: nat) returns (val: Bit)
      requires Valid(w) && w > 0 && AllConstant(links)
      modifies this`driven
      ensures Valid(w) && val == DrivenBit(links) && driven == Known4(val)
    {
      if driven.Known4? {
        return driven.b;
      }
      assert driven != Var;
      val := VZ;
      for k := 0 to |links|
        invariant val == DrivenBit(links[..k])
      {
        PrefixStep(links, k);
        CountPrefix(links, k + 1);
        if links[k].obj.ConstObj? {
          OnlyDriver(links, k);
          assert val == VZ;
          assert WellLink(links[k], w);
          val := links[k].obj.bits[links[k].pin];
        } else if Pulls(links[k]) {
          OnlyDriver(links, k);
          assert val == VZ;
          val := PullBit(links[k]);
        }
      }
      assert links[..|links|] == links;
      driven := Known4(val);
    }

    /** After drivers_constant said yes: the vector of the only driver, z without one. */
    method DrivenVector(ghost w: nat) returns (val: Vec)
      requires Valid(w) && AllConstant(links)
      ensures val == DrivenVec(links)
    {
      val := [];
      var width: nat := 0;
      for k := 0 to |links|
        invariant Count(links[..k]) == 0 ==> val == [] && DrivenVec(links[..k]) == Fill(VZ, width)
        invariant Count(links[..k]) > 0 ==> val == DrivenVec(links[..k]) && |val| == width == w
        invariant width == 0 || width == w
      {
        PrefixStep(links, k);
        CountPrefix(links, k + 1);
        assert WellLink(links[k], w);
        if links[k].obj.ConstObj? {
          OnlyDriver(links, k);
          assert |val| == 0;
          val := links[k].obj.bits;
          width := |val|;
        } else if links[k].obj.Sig? {
          width := links[k].obj.wid;
          if Pulls(links[k]) {
            OnlyDriver(links, k);
            assert |val| == 0;
            val := Fill(PullBit(links[k]), width);
          }
        }
      }
      assert links[..|links|] == links;
      if |val| != width {
        val := Fill(VZ, width);
      }
    }

    /** Which bits something drives, with all the early answers of the scan. */
    method DrivenMask(w: nat) returns (mask: seq<bool>)
      requires Valid(w) && Contained(links, w)
      ensures |mask| == w
      ensures forall i :: 0 <= i < w ==> (mask[i] <==> exists k :: 0 <= k < |links| && CoversBit(links[k], i))
    {
      mask := seq(w, _ => false);
      var all := seq(w, _ => true);
      for k := 0 to |links|
        invariant |mask| == w
        invariant forall i :: 0 <= i < w ==> (mask[i] <==> exists j :: 0 <= j < k && CoversBit(links[j], i))
      {
        var l := links[k];
        assert WellLink(l, w);
        ghost var before := mask;
        if l.dir == Passive || l.dir == Input {
          continue;
        }
        if l.obj.Sig? {
          if l.obj.typ == Integer || l.obj.typ == Reg {
            assert forall i :: 0 <= i < w ==> CoversBit(l, i);
            return all;
          }
        } else if l.obj.PartSelect? {
          if !l.obj.pv {
            if l.pin != 0 {
              continue;
            }
            assert forall i :: 0 <= i < w ==> CoversBit(l, i);
            return all;
          }
          if l.pin != 1 {
            continue;
          }
          mask := SetRange(mask, l.obj.base, l.obj.wid);
          MaskStep(before, mask, links, k, w);
        } else {
          assert forall i :: 0 <= i < w ==> CoversBit(l, i);
          return all;
        }
      }
    }

    // ----- joining and parting -----

    /** connect, the other side a link of its own. An input link keeps the guess, which is
        right but for the enable of a tran. */
    method ConnectLink(l: Link, ghost w: nat)
      requires Valid(w) && WellLink(l, w)
      modifies this
      ensures links == old(links) + [l]
      ensures driven == if old(links) == [] || l.dir != Input then NoGuess else old(driven)
      ensures Valid(w) <==> old(links) == [] || !Enable(l) || !old(driven).Known4?
    {
      if l.dir == Input {
        InputEffect(links, [], l, w);
      }
      if links == [] {
        driven := NoGuess;
      } else if l.dir != Input {
        driven := NoGuess;
      }
      assert links + [l] + [] == links + [l] && links + [] == links;
      links := links + [l];
    }

    /** connect, the other side another nexus, whose links are taken over. */
    method ConnectNexus(r: Nexus, ghost w: nat)
      requires this != r && Valid(w) && r.Valid(w) && r.links != []
      modifies this, r
      ensures links == old(links) + old(r.links) && r.links == []
      ensures driven == old(Joined(driven, links, r.driven))
      ensures Valid(w) <==> old(StaysHonest(driven, links, r.driven, r.links))
    {
      JoinExactness(driven, links, r.driven, r.links, w);
      if links == [] {
        driven := r.driven;
      } else if r.driven != Known4(VZ) {
        driven := NoGuess;
      }
      links := links + r.links;
      r.links, r.driven := [], NoGuess;
    }

    /** unlink. Only a kept "not constant" can be out of date, after the enable of a tran goes. */
    method Unlink(k: nat, ghost w: nat)
      requires Valid(w) && k < |links|
      modifies this
      ensures links == old(links)[..k] + old(links)[k + 1..]
      ensures driven == if |old(links)| == 1 || old(links)[k].dir != Input then NoGuess else old(driven)
      ensures Valid(w) <==> |old(links)| == 1 || !Enable(old(links)[k]) || old(driven) != Var || !AllConstant(links)
    {
      var that := links[k];
      if that.dir == Input {
        InputEffect(links[..k], links[k + 1..], that, w);
      }
      assert links[..k] + [that] + links[k + 1..] == links;
      links := links[..k] + links[k + 1..];
      if links == [] {
        driven := NoGuess;
      } else if that.dir != Input {
        driven := NoGuess;
      }
    }
  }

  // ----- the links of a netlist -----

  function PullType(n: Netlist.NexusInfo): NetType {
    match n.pull
    case Tri0 => Tri0
    case Tri1 => Tri1
    case Supply0 => Supply0
    case Supply1 => Supply1
    case Wire => if n.outside.Variable? then Reg else Plain
  }

  /** How a signal is declared: whether in a root module, and as which kind of port. */
  datatype Decl = Decl(root: bool, port: Port)

  /** The outside world reaches a nexus through the input and inout ports of root modules. */
  predicate Declares(d: Decl, n: Netlist.NexusInfo) {
    var reached := d.root && (d.port == PInput || d.port == PInout);
    (n.outside == Netlist.RootPort ==> reached) && (n.outside == Netlist.Nobody ==> !reached)
  }

  function NetLinks(n: Netlist.NexusInfo, d: Decl): seq<Link> {
    var sig := Sig(n.outside.Variable?, PullType(n), n.wid, d.root, d.port);
    [Link(SigDir(PullType(n)), sig, 0)] + (if n.outside.TranLink? then [Link(Passive, Tran, 0)] else [])
  }

  function OutputLink(n: Netlist.Node): Link {
    match n
    case ConstN(_, bits) => Link(Output, ConstObj(bits), 0)
    case PartPV(_, _, base, wid) => Link(Output, PartSelect(true, base, wid), 1)
    case _ => Link(Output, Another, 0)
  }

  function DriverLinks(nodes: seq<Netlist.Node>, x: nat): seq<Link> {
    if |nodes| == 0 then []
    else
      var k := |nodes| - 1;
      DriverLinks(nodes[..k], x) + (if Netlist.Drives(nodes[k], x) then [OutputLink(nodes[k])] else [])
  }

  lemma {:induction false} DriverLinksAre(nodes: seq<Netlist.Node>, x: nat)
    ensures var d := Netlist.Drivers(nodes, x);
            var links := DriverLinks(nodes, x);
            |links| == |d| && forall j :: 0 <= j < |d| ==> links[j] == OutputLink(nodes[d[j]])
    decreases |nodes|
  {
    if |nodes| > 0 {
      DriverLinksAre(nodes[..|nodes| - 1], x);
    }
  }

  lemma {:induction false} CountAll(links: seq<Link>)
    requires forall j :: 0 <= j < |links| ==> links[j].dir == Output && !links[j].obj.Tran? && !links[j].obj.Sig?
    ensures (forall j :: 0 <= j < |links| ==> !Blocks(links[j])) ==> Count(links) == |links|
    decreases |links|
  {
    if |links| > 0 {
      CountAll(links[..|links| - 1]);
      assert !Blocks(links[|links| - 1]) ==> Drive(links[|links| - 1]);
    }
  }

  lemma OwnBlocks(n: Netlist.NexusInfo, d: Decl)
    requires Declares(d, n)
    ensures (forall k :: 0 <= k < |NetLinks(n, d)| ==> !Blocks(NetLinks(n, d)[k]))
            <==> n.outside.Nobody? || (n.outside.RootPort? && n.pull != Netlist.Wire)
  {
    var own := NetLinks(n, d);
    if n.outside.TranLink? {
      assert Blocks(own[1]);
    } else {
      assert Blocks(own[0]) <==> n.outside.Variable? || (n.outside.RootPort? && n.pull == Netlist.Wire);
    }
  }

  lemma OwnCount(n: Netlist.NexusInfo, d: Decl)
    ensures Count(NetLinks(n, d)) == if n.pull == Netlist.Wire then 0 else 1
  {
    var sig := NetLinks(n, d)[0];
    var tail := if n.outside.TranLink? then [Link(Passive, Tran, 0)] else [];
    assert [sig][..0] == [] && [Link(Passive, Tran, 0)][..0] == [];
    CountAppend([sig], tail);
  }

  lemma DriversBlock(nodes: seq<Netlist.Node>, x: nat)
    ensures var d := Netlist.Drivers(nodes, x);
            var drv := DriverLinks(nodes, x);
            && |drv| == |d|
            && ((forall k :: 0 <= k < |drv| ==> !Blocks(drv[k])) <==> forall j :: 0 <= j < |d| ==> nodes[d[j]].ConstN?)
            && ((forall k :: 0 <= k < |drv| ==> !Blocks(drv[k])) ==> Count(drv) == |d|)
  {
    var d := Netlist.Drivers(nodes, x);
    var drv := DriverLinks(nodes, x);
    DriverLinksAre(nodes, x);
    CountAll(drv);
    assert forall j :: 0 <= j < |d| ==> (Blocks(drv[j]) <==> !nodes[d[j]].ConstN?);
  }

  /** The links of a nexus of the netlist: its signal, the far side of a tran, and its drivers. */
  function LinksAs(net: Netlist.Net, x: nat, d: Decl): seq<Link>
    requires x < |net.nexus|
  {
    NetLinks(net.nexus[x], d) + DriverLinks(net.nodes, x)
  }

  /** One of the declarations that fit. */
  function DeclOf(n: Netlist.NexusInfo): (d: Decl)
    ensures Declares(d, n)
  {
    if n.outside.RootPort? then Decl(true, PInout) else Decl(false, NotAPort)
  }

  function LinksOf(net: Netlist.Net, x: nat): seq<Link>
    requires x < |net.nexus|
  {
    LinksAs(net, x, DeclOf(net.nexus[x]))
  }

  lemma ListedAgree(net: Netlist.Net, x: nat, d: Decl)
    requires x < |net.nexus| && Declares(d, net.nexus[x])
    ensures AllConstant(LinksAs(net, x, d)) <==> Netlist.ConstDriven(net, x)
  {
    var own, drv := NetLinks(net.nexus[x], d), DriverLinks(net.nodes, x);
    BlocksAppend(own, drv);
    CountAppend(own, drv);
    OwnBlocks(net.nexus[x], d);
    OwnCount(net.nexus[x], d);
    DriversBlock(net.nodes, x);
  }

  lemma OwnVector(n: Netlist.NexusInfo, d: Decl)
    requires !n.outside.TranLink?
    ensures DrivenVec(NetLinks(n, d)) == Fill(Netlist.Settle(n.pull, VZ), n.wid)
  {
    var sig := NetLinks(n, d)[0];
    assert NetLinks(n, d) == [sig];
    assert [sig][..0] == [];
  }

  lemma LastDrives(own: seq<Link>, drv: seq<Link>)
    requires |drv| == 1 && Drive(drv[0])
    ensures DrivenVec(own + drv) == DriveVec(drv[0])
  {
    assert (own + drv)[|own + drv| - 1] == drv[0];
  }

  lemma ListedVector(net: Netlist.Net, x: nat, d: Decl)
    requires Netlist.ConstDriven(net, x)
    ensures DrivenVec(LinksAs(net, x, d)) == Netlist.DrivenVector(net, x)
  {
    var own, drv := NetLinks(net.nexus[x], d), DriverLinks(net.nodes, x);
    DriverLinksAre(net.nodes, x);
    if |Netlist.Drivers(net.nodes, x)| == 1 {
      LastDrives(own, drv);
    } else {
      assert own + drv == own;
      OwnVector(net.nexus[x], d);
    }
  }

  lemma ListedWell(net: Netlist.Net, x: nat, d: Decl)
    requires Netlist.WellNet(net) && x < |net.nexus|
    ensures WellLinks(LinksAs(net, x, d), net.nexus[x].wid)
  {
    var w := net.nexus[x].wid;
    var own, drv := NetLinks(net.nexus[x], d), DriverLinks(net.nodes, x);
    DriverLinksAre(net.nodes, x);
    forall k | 0 <= k < |drv|
      ensures WellLink(drv[k], w)
    {
      assert Netlist.WellNode(net.nodes[Netlist.Drivers(net.nodes, x)[k]], net.nexus);
    }
    assert WellLinks(own, w);
  }

  // ----- any list of links -----

  /** Neither drives nor blocks: inputs, and further plain signals. */
  predicate Silent(l: Link) {
    !Blocks(l) && !Drive(l)
  }

  function Loud(links: seq<Link>): (r: seq<Link>)
    ensures forall k :: 0 <= k < |r| ==> r[k] in links && !Silent(r[k])
  {
    if |links| == 0 then []
    else
      var l := links[|links| - 1];
      Loud(links[..|links| - 1]) + (if Silent(l) then [] else [l])
  }

  predicate HasSignal(links: seq<Link>) {
    exists k :: 0 <= k < |links| && links[k].obj.Sig?
  }

  lemma {:induction false} LoudComplete(links: seq<Link>, k: nat)
    requires k < |links| && !Silent(links[k])
    ensures links[k] in Loud(links)
    decreases |links|
  {
    var m := |links| - 1;
    if k < m {
      LoudComplete(links[..m], k);
    }
  }

  lemma {:induction false} LoudCount(links: seq<Link>)
    ensures Count(Loud(links)) == Count(links)
    decreases |links|
  {
    if |links| > 0 {
      var m := |links| - 1;
      LoudCount(links[..m]);
      CountAppend(Loud(links[..m]), [links[m]]);
      assert [links[m]][..0] == [];
      assert Loud(links[..m]) + [] == Loud(links[..m]);
    }
  }

  lemma WithoutOne(b: seq<Link>, j: nat)
    requires j < |b|
    ensures var rest := b[..j] + b[j + 1..];
            && multiset(rest) == multiset(b) - multiset{b[j]}
            && Count(b) == Count(rest) + if Drive(b[j]) then 1 else 0
  {
    assert b == b[..j] + [b[j]] + b[j + 1..];
    CountAppend(b[..j] + [b[j]], b[j + 1..]);
    CountAppend(b[..j], [b[j]]);
    CountAppend(b[..j], b[j + 1..]);
    assert [b[j]][..0] == [];
  }

  lemma {:induction false} CountPermuted(a: seq<Link>, b: seq<Link>)
    requires multiset(a) == multiset(b)
    ensures Count(a) == Count(b)
    decreases |a|
  {
    assert |a| == |multiset(a)| == |multiset(b)| == |b|;
    if |a| > 0 {
      assert a[0] in multiset(b);
      var j: nat :| j < |b| && b[j] == a[0];
      WithoutOne(a, 0);
      WithoutOne(b, j);
      CountPermuted(a[..0] + a[1..], b[..j] + b[j + 1..]);
    }
  }

  /** The same links but for silent ones, in whatever order. */
  predicate SameLoud(a: seq<Link>, b: seq<Link>) {
    multiset(Loud(a)) == multiset(Loud(b))
  }

  lemma LoudMember(a: seq<Link>, b: seq<Link>, k: nat)
    requires SameLoud(a, b) && k < |a| && !Silent(a[k])
    ensures a[k] in b
  {
    LoudComplete(a, k);
    assert a[k] in multiset(Loud(b));
  }

  lemma SameLoudConstant(a: seq<Link>, b: seq<Link>)
    requires SameLoud(a, b)
    ensures Count(a) == Count(b) && (AllConstant(a) <==> AllConstant(b))
  {
    LoudCount(a);
    LoudCount(b);
    CountPermuted(Loud(a), Loud(b));
    if k :| 0 <= k < |a| && Blocks(a[k]) {
      LoudMember(a, b, k);
      assert !AllConstant(b);
    }
    if k :| 0 <= k < |b| && Blocks(b[k]) {
      LoudMember(b, a, k);
      assert !AllConstant(a);
    }
  }

  lemma {:induction false} OneDriverDecides(links: seq<Link>, k: nat)
    requires k < |links| && Drive(links[k]) && Count(links) <= 1
    ensures DrivenBit(links) == DriveBit(links[k]) && DrivenVec(links) == DriveVec(links[k])
    decreases |links|
  {
    var m := |links| - 1;
    if k < m {
      CountZero(links[..m]);
      assert Drive(links[..m][k]);
      OneDriverDecides(links[..m], k);
    }
  }

  lemma {:induction false} NoDriverVec(links: seq<Link>, w: nat)
    requires WellLinks(links, w) && Count(links) == 0
    ensures DrivenVec(links) == if HasSignal(links) then Fill(VZ, w) else []
    decreases |links|
  {
    if |links| > 0 {
      var m := |links| - 1;
      assert WellLink(links[m], w);
      NoDriverVec(links[..m], w);
      if !links[m].obj.Sig? {
        assert HasSignal(links) ==> HasSignal(links[..m]) by {
          if k :| 0 <= k < |links| && links[k].obj.Sig? {
            assert links[..m][k].obj.Sig?;
          }
        }
      }
    }
  }

  lemma SameLoudDriven(a: seq<Link>, b: seq<Link>, w: nat)
    requires SameLoud(a, b) && WellLinks(a, w) && WellLinks(b, w) && HasSignal(a) && HasSignal(b) && Count(a) <= 1
    ensures DrivenVec(a) == DrivenVec(b) && DrivenBit(a) == DrivenBit(b)
  {
    SameLoudConstant(a, b);
    CountZero(a);
    if k :| 0 <= k < |a| && Drive(a[k]) {
      LoudMember(a, b, k);
      var j :| 0 <= j < |b| && b[j] == a[k];
      OneDriverDecides(a, k);
      OneDriverDecides(b, j);
    } else {
      NoDriverVec(a, w);
      NoDriverVec(b, w);
      DrivenBitZ(a);
      DrivenBitZ(b);
    }
  }

  /** A list of links that stands for nexus x of the netlist, its signal declared as d says: the
      links in any order, with any number of inputs and further signals of its width. */
  predicate StandsAs(links: seq<Link>, net: Netlist.Net, x: nat, d: Decl) {
    && x < |net.nexus| && Declares(d, net.nexus[x])
    && WellLinks(links, net.nexus[x].wid) && HasSignal(links) && SameLoud(links, LinksAs(net, x, d))
  }

  ghost predicate Stands(links: seq<Link>, net: Netlist.Net, x: nat) {
    exists d: Decl :: StandsAs(links, net, x, d)
  }

  /** The scan of such a list and the netlist's notion of a constant nexus are the same. */
  lemma LinksAgree(links: seq<Link>, net: Netlist.Net, x: nat)
    requires Stands(links, net, x)
    ensures AllConstant(links) <==> Netlist.ConstDriven(net, x)
  {
    var d: Decl :| StandsAs(links, net, x, d);
    SameLoudConstant(links, LinksAs(net, x, d));
    ListedAgree(net, x, d);
  }

  /** And so are the vectors that they find. */
  lemma VectorsAgree(links: seq<Link>, net: Netlist.Net, x: nat)
    requires Netlist.WellNet(net) && Stands(links, net, x) && Netlist.ConstDriven(net, x)
    ensures DrivenVec(links) == Netlist.DrivenVector(net, x)
    ensures net.nexus[x].wid > 0 ==> DrivenBit(links) == Netlist.DrivenVector(net, x)[0]
  {
    var d: Decl :| StandsAs(links, net, x, d);
    LinksAgree(links, net, x);
    ListedWell(net, x, d);
    assert LinksAs(net, x, d)[0].obj.Sig?;
    SameLoudDriven(links, LinksAs(net, x, d), net.nexus[x].wid);
    ListedVector(net, x, d);
    Netlist.DrivenWidth(net, x);
    if net.nexus[x].wid > 0 {
      BitIsBitZero(links, net.nexus[x].wid);
    }
  }

  /** A plain signal of a root module alone on its nexus counts as constant exactly when it is no
      port or an output. Otherwise it stands for a nexus that the outside can bring to any vector. */
  lemma PlainRootSignal(p: Port, v: Vec)
    ensures var links := [Link(Passive, Sig(false, Plain, |v|, true, p), 0)];
            var net := Netlist.Net([], [Netlist.NexusInfo(|v|, Netlist.Wire, Netlist.RootPort, true)]);
            && (AllConstant(links) <==> p == NotAPort || p == POutput)
            && (!AllConstant(links) ==> Stands(links, net, 0) && Netlist.CanSettle(net, 0, v))
  {
    var l := Link(Passive, Sig(false, Plain, |v|, true, p), 0);
    var net := Netlist.Net([], [Netlist.NexusInfo(|v|, Netlist.Wire, Netlist.RootPort, true)]);
    assert [l][..0] == [] && Count([l]) == 0;
    assert Blocks([l][0]) <==> p == PInput || p == PInout;
    if p == PInput || p == PInout {
      assert LinksAs(net, 0, Decl(true, p)) == [l];
      assert StandsAs([l], net, 0, Decl(true, p));
      Netlist.OpenPortSettles(net, 0, v);
    }
  }

  // ----- what the mask leaves out -----

  lemma CoverStands(links: seq<Link>, net: Netlist.Net, x: nat, d: Decl, l: Link, i: nat)
    requires StandsAs(links, net, x, d) && l in LinksAs(net, x, d) && CoversBit(l, i)
    ensures exists k :: 0 <= k < |links| && CoversBit(links[k], i)
  {
    var own := LinksAs(net, x, d);
    var j: nat :| j < |own| && own[j] == l;
    LoudMember(own, links, j);
    var k :| 0 <= k < |links| && links[k] == l;
  }

  lemma NodeCovers(n: Netlist.Node, i: nat, val: Netlist.Val, w: Netlist.World)
    requires !n.Gone? && !CoversBit(OutputLink(n), i)
    ensures Netlist.OutBit(n, i, val, w) == VZ
  {
  }

  /** At a bit that is not in the mask every driver puts z, and no variable stands by. */
  lemma UncoveredFloats(links: seq<Link>, net: Netlist.Net, x: nat, i: nat, val: Netlist.Val, w: Netlist.World)
    requires Stands(links, net, x) && forall k :: 0 <= k < |links| ==> !CoversBit(links[k], i)
    ensures Netlist.DriveBit(net.nodes, x, i, val, w) == VZ
    ensures !(net.nexus[x].outside.Variable? && net.nexus[x].pull == Netlist.Wire)
  {
    var d: Decl :| StandsAs(links, net, x, d);
    var own, drivers := LinksAs(net, x, d), Netlist.Drivers(net.nodes, x);
    DriverLinksAre(net.nodes, x);
    forall j: nat | j < |net.nodes|
      ensures Netlist.Put(net.nodes[j], x, i, val, w) == VZ
    {
      if Netlist.Drives(net.nodes[j], x) {
        Netlist.DriversComplete(net.nodes, x, j);
        var m: nat :| m < |drivers| && drivers[m] == j;
        assert own[|NetLinks(net.nexus[x], d)| + m] == OutputLink(net.nodes[j]);
        if CoversBit(OutputLink(net.nodes[j]), i) {
          CoverStands(links, net, x, d, OutputLink(net.nodes[j]), i);
        }
        NodeCovers(net.nodes[j], i, val, w);
      }
    }
    Netlist.DriveNothing(net.nodes, x, i, val, w);
    if net.nexus[x].outside.Variable? && net.nexus[x].pull == Netlist.Wire {
      CoverStands(links, net, x, d, own[0], i);
    }
  }

  /** A part select is marked exactly where it can put something other than z. */
  lemma PartSelectMarks(n: Netlist.Node, i: nat)
    requires n.PartPV?
    ensures CoversBit(OutputLink(n), i)
            <==> exists val: Netlist.Val, w :: Netlist.OutBit(n, i, val, w) != VZ
  {
    if CoversBit(OutputLink(n), i) {
      var val: Netlist.Val := _ => Fill(V1, i + 1);
      var w := Netlist.World(_ => [], (_, _) => [], _ => []);
      assert Netlist.OutBit(n, i, val, w) == V1;
    }
  }
}
