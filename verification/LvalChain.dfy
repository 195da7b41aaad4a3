/** Concatenations on the left of an assignment: the chain of procedural l-values
    (qflow-org/iverilog/elab_lval.cc:101-150, qflow-org/iverilog/net_assign.cc) and the part
    selects of the net form (qflow-org/iverilog/elab_net.cc:45-158). */
module LvalChain {
  import opened FourState
  import opened NetExpr

  /** What elaboration finds at an l-value: a signal, with the width of a part select on it if
      there is one. `Failed` elaborates to nothing; `repeated` marks a repeat count, which an
      l-value must not have. */
  datatype Pattern =
    | Leaf(id: nat, sigWidth: nat, part: Option<nat>, isReal: bool)
    | Missing
    | Failed
    | Nest(parms: seq<Pattern>, repeated: bool)

  datatype Target = Target(id: nat, wid: nat)

  /** The bits that a signal or a part select of it takes. */
  function LeafWidth(sigWidth: nat, part: Option<nat>): nat {
    if part.Some? then part.value else sigWidth
  }

  /** The targets, least significant first. */
  function Targets(p: Pattern): seq<Target>
    decreases p, 1
  {
    match p
    case Leaf(id, w, part, _) => [Target(id, LeafWidth(w, part))]
    case Nest(ps, false) => TargetsAll(ps)
    case _ => []
  }

  function TargetsAll(ps: seq<Pattern>): seq<Target>
    decreases ps, 0
  {
    if ps == [] then [] else TargetsAll(ps[1..]) + Accepted(ps[0])
  }

  /** An operand of a concatenation; a real one is refused. */
  function Accepted(p: Pattern): seq<Target>
    decreases p, 2
  {
    if p.Leaf? && p.isReal then [] else Targets(p)
  }

  lemma {:induction false} TargetsSnoc(ps: seq<Pattern>, p: Pattern)
    ensures TargetsAll(ps + [p]) == Accepted(p) + TargetsAll(ps)
  {
    if ps == [] {
      assert [p][1..] == [] && [] + [p] == [p];
      assert TargetsAll([p]) == TargetsAll([]) + Accepted(p);
    } else {
      TargetsSnoc(ps[1..], p);
      assert (ps + [p])[1..] == ps[1..] + [p];
    }
  }

  function TotalWidth(ts: seq<Target>): nat {
    if ts == [] then 0 else ts[0].wid + TotalWidth(ts[1..])
  }

  lemma {:induction false} TotalUpdate(ts: seq<Target>, k: nat, t: Target)
    requires k < |ts|
    ensures TotalWidth(ts[k := t]) == TotalWidth(ts) - ts[k].wid + t.wid
  {
    if k == 0 {
      assert ts[0 := t][1..] == ts[1..];
    } else {
      TotalUpdate(ts[1..], k - 1, t);
      assert ts[k := t][1..] == ts[1..][k - 1 := t];
    }
  }

  // ----- the chain -----

  class NetAssign {
    const id: nat
    var lwid: nat
    const isReal: bool
    var more: NetAssign?

    constructor (id: nat, wid: nat, isReal: bool)
      ensures this.id == id && lwid == wid && this.isReal == isReal && more == null
    {
      this.id := id;
      lwid := wid;
      this.isReal := isReal;
      more := null;
    }

    /** set_part: an l-value anywhere on a chain takes another width, and the rest of the chain stays. */
    method SetPart(wid: nat, ghost head: NetAssign?, ghost s: seq<NetAssign>, ghost k: nat)
      requires Chain(head, s) && k < |s| && s[k] == this
      modifies this`lwid
      ensures Chain(head, s) && Listed(s) == old(Listed(s))[k := Target(id, wid)]
      ensures TotalWidth(Listed(s)) == TotalWidth(old(Listed(s))) - old(lwid) + wid
    {
      ghost var ts := Listed(s);
      lwid := wid;
      assert Listed(s) == ts[k := Target(id, wid)];
      TotalUpdate(ts, k, Target(id, wid));
    }
  }

  /** The objects from `head` along `more`: none twice, none lost, no cycle. */
  ghost predicate Chain(head: NetAssign?, s: seq<NetAssign>)
    reads s
  {
    && head == (if s == [] then null else s[0])
    && (forall i :: 0 <= i < |s| ==> s[i].more == if i + 1 < |s| then s[i + 1] else null)
    && (forall i, j :: 0 <= i < j < |s| ==> s[i] != s[j])
  }

  ghost function Listed(s: seq<NetAssign>): (ts: seq<Target>)
    reads s
    ensures |ts| == |s|
    ensures forall i :: 0 <= i < |s| ==> ts[i] == Target(s[i].id, s[i].lwid)
  {
    seq(|s|, i requires 0 <= i < |s| reads s => Target(s[i].id, s[i].lwid))
  }

  ghost predicate Elaborated(head: NetAssign?, s: seq<NetAssign>, ts: seq<Target>)
    reads s
  {
    Chain(head, s) && Listed(s) == ts
  }

  /** Splices one chain in front of another: last->more = res. */
  method Link(tmp: NetAssign, ghost s: seq<NetAssign>, res: NetAssign?, ghost t: seq<NetAssign>)
    requires Chain(tmp, s) && Chain(res, t)
    requires forall i, j :: 0 <= i < |s| && 0 <= j < |t| ==> s[i] != t[j]
    modifies s
    ensures Chain(tmp, s + t) && Listed(s) == old(Listed(s)) && Listed(t) == old(Listed(t))
  {
    var last := tmp;
    ghost var n := 0;
    while last.more != null
      invariant 0 <= n < |s| && last == s[n]
      invariant last.more == if n + 1 < |s| then s[n + 1] else null
      decreases |s| - n
    {
      last := last.more;
      n := n + 1;
    }
    assert n == |s| - 1;
    last.more := res;
    ghost var st := s + t;
    forall i | 0 <= i < |st|
      ensures st[i].more == if i + 1 < |st| then st[i + 1] else null
    {
      if i >= |s| {
        assert t[i - |s|].more == if i - |s| + 1 < |t| then t[i - |s| + 1] else null;
      }
    }
    assert st != [] && st[0] == tmp;
    assert forall i, j :: 0 <= i < j < |st| ==> st[i] != st[j];
    assert Chain(tmp, st);
  }

  /** No operand is refused. */
  predicate Clean(p: Pattern)
    decreases p, 0
  {
    match p
    case Leaf(_, _, _, _) => true
    case Nest(ps, repeated) => !repeated && forall j :: 0 <= j < |ps| ==> CleanOperand(ps[j])
    case _ => false
  }

  /** One round of the loop: a real operand is refused, any other goes to the front. */
  method Prepend(tmp: NetAssign?, ghost s: seq<NetAssign>, ghost p: Pattern, res: NetAssign?, ghost t: seq<NetAssign>,
                 ghost before: seq<Target>)
    returns (head: NetAssign?, ghost chain: seq<NetAssign>, refused: bool)
    requires Elaborated(tmp, s, Targets(p)) && Elaborated(res, t, before)
    requires forall i, j :: 0 <= i < |s| && 0 <= j < |t| ==> s[i] != t[j]
    requires s != [] ==> s[0].isReal == (p.Leaf? && p.isReal)
    requires t != [] ==> !t[0].isReal
    modifies s
    ensures Elaborated(head, chain, Accepted(p) + before)
    ensures chain == t || chain == s + t
    ensures chain != [] ==> !chain[0].isReal
    ensures refused <==> p.Leaf? && p.isReal
  {
    head, chain, refused := res, t, false;
    if tmp == null {
      assert s == [];
      assert Targets(p) == [];
      assert Accepted(p) + before == before;
    } else if tmp.isReal {
      refused := true;
      assert Accepted(p) + before == before;
    } else {
      Link(tmp, s, res, t);
      head, chain := tmp, s + t;
      assert Listed(chain) == Accepted(p) + before;
    }
  }

  predicate CleanOperand(p: Pattern)
    decreases p, 1
  {
    Clean(p) && !(p.Leaf? && p.isReal)
  }

  lemma NothingElaborated(ps: seq<Pattern>)
    ensures Elaborated(null, [], TargetsAll(ps[..0]))
  {
  }

  /** elaborate_lval. The chain lists the accepted targets from least to most significant. */
  method ElaborateLval(p: Pattern) returns (res: NetAssign?, ghost chain: seq<NetAssign>, errors: nat)
    ensures Elaborated(res, chain, Targets(p)) && fresh(chain)
    ensures chain != [] ==> chain[0].isReal == (p.Leaf? && p.isReal)
    ensures p.Leaf? ==> |chain| == 1 && chain[0].id == p.id
    ensures p.Leaf? && p.part.None? ==> chain[0].lwid == p.sigWidth
    ensures p.Leaf? && p.part.Some? ==> chain[0].lwid == p.part.value
    ensures errors == 0 <==> Clean(p)
    decreases p, 1
  {
    match p
    case Leaf(id, wid, part, isReal) =>
      var a := new NetAssign(id, wid, isReal);
      if part.Some? {
        a.SetPart(part.value, a, [a], 0);
      }
      return a, [a], 0;
    case Missing => return null, [], 1;
    case Failed => return null, [], 1;
    case Nest(ps, repeated) =>
      if repeated {
        return null, [], 1;
      }
      res, chain, errors := ElaborateConcat(ps);
  }

  method ElaborateConcat(ps: seq<Pattern>) returns (res: NetAssign?, ghost chain: seq<NetAssign>, errors: nat)
    ensures Elaborated(res, chain, TargetsAll(ps)) && fresh(chain)
    ensures chain != [] ==> !chain[0].isReal
    ensures errors == 0 <==> forall j :: 0 <= j < |ps| ==> CleanOperand(ps[j])
    decreases ps, 0
  {
    hide Clean, Targets, TargetsAll, Accepted, Elaborated, Chain, Listed;
    res, chain, errors := null, [], 0;
    NothingElaborated(ps);
    for idx := 0 to |ps|
      invariant fresh(chain) && Elaborated(res, chain, TargetsAll(ps[..idx]))
      invariant chain != [] ==> !chain[0].isReal
      invariant errors == 0 <==> forall j :: 0 <= j < idx ==> CleanOperand(ps[j])
    {
      assert ps[..idx + 1] == ps[..idx] + [ps[idx]];
      TargetsSnoc(ps[..idx], ps[idx]);
      var tmp, s, e := ElaborateLval(ps[idx]);
      var refused;
      res, chain, refused := Prepend(tmp, s, ps[idx], res, chain, TargetsAll(ps[..idx]));
      errors := errors + e + if refused then 1 else 0;
    }
    assert ps[..|ps|] == ps;
  }

  // ----- walking the chain -----

  /** What is left of the chain from position n. */
  ghost predicate ReachedAt(cur: NetAssign?, s: seq<NetAssign>, n: nat) {
    n <= |s| && cur == if n < |s| then s[n] else null
  }

  lemma TotalSnoc(ts: seq<Target>, t: Target)
    ensures TotalWidth(ts + [t]) == TotalWidth(ts) + t.wid
  {
    if ts == [] {
      assert [t][1..] == [] && [] + [t] == [t];
    } else {
      TotalSnoc(ts[1..], t);
      assert (ts + [t])[1..] == ts[1..] + [t];
    }
  }

  /** count_lval_width. */
  method CountLvalWidth(head: NetAssign?, ghost s: seq<NetAssign>) returns (wid: nat)
    requires Chain(head, s)
    ensures wid == TotalWidth(Listed(s))
  {
    wid := 0;
    var idx := head;
    ghost var n := 0;
    while idx != null
      invariant ReachedAt(idx, s, n) && wid == TotalWidth(Listed(s)[..n])
      decreases |s| - n
    {
      TotalSnoc(Listed(s)[..n], Listed(s)[n]);
      assert Listed(s)[..n + 1] == Listed(s)[..n] + [Listed(s)[n]];
      wid := wid + idx.lwid;
      idx := idx.more;
      n := n + 1;
    }
    assert Listed(s)[..n] == Listed(s);
  }

  class NetAssignBase {
    var lval: NetAssign?

    constructor (lv: NetAssign?)
      ensures lval == lv
    {
      lval := lv;
    }

    /** l_val: the idx-th object, or nothing beyond the end. */
    method LVal(idx: nat, ghost s: seq<NetAssign>) returns (cur: NetAssign?)
      requires Chain(lval, s)
      ensures cur == if idx < |s| then s[idx] else null
    {
      cur := lval;
      var left := idx;
      ghost var n := 0;
      while left > 0
        invariant ReachedAt(cur, s, n) && n + left == idx
      {
        if cur == null {
          return null;
        }
        cur := cur.more;
        left := left - 1;
        n := n + 1;
      }
    }

    /** l_val_count. */
    method LValCount(ghost s: seq<NetAssign>) returns (cnt: nat)
      requires Chain(lval, s)
      ensures cnt == |s|
    {
      var cur := lval;
      cnt := 0;
      while cur != null
        invariant ReachedAt(cur, s, cnt)
        decreases |s| - cnt
      {
        cnt := cnt + 1;
        cur := cur.more;
      }
    }

    /** lwidth. */
    method LWidth(ghost s: seq<NetAssign>) returns (sum: nat)
      requires Chain(lval, s)
      ensures sum == TotalWidth(Listed(s))
    {
      sum := 0;
      var cur := lval;
      ghost var n := 0;
      while cur != null
        invariant ReachedAt(cur, s, n) && sum == TotalWidth(Listed(s)[..n])
        decreases |s| - n
      {
        TotalSnoc(Listed(s)[..n], Listed(s)[n]);
        assert Listed(s)[..n + 1] == Listed(s)[..n] + [Listed(s)[n]];
        sum := sum + cur.lwid;
        cur := cur.more;
        n := n + 1;
      }
      assert Listed(s)[..n] == Listed(s);
    }

    /** The destructor: every object is let go with nothing hanging on it. */
    method Release(ghost s: seq<NetAssign>)
      requires Chain(lval, s)
      modifies this, s
      ensures lval == null && forall i :: 0 <= i < |s| ==> s[i].more == null
    {
      ghost var n := 0;
      while lval != null
        invariant ReachedAt(lval, s, n)
        invariant forall i :: 0 <= i < n ==> s[i].more == null
        invariant forall i :: n <= i < |s| ==> s[i].more == if i + 1 < |s| then s[i + 1] else null
        decreases |s| - n
      {
        var tmp := lval;
        lval := tmp.more;
        tmp.more := null;
        n := n + 1;
      }
    }
  }

  // ----- the net form -----

  function Sum(widths: seq<nat>): nat {
    if widths == [] then 0 else widths[0] + Sum(widths[1..])
  }

  /** The offsets that the split loop gives to operands of these widths, most significant first. */
  function Offsets(widths: seq<nat>): (offs: seq<nat>)
    ensures |offs| == |widths|
  {
    if widths == [] then [] else [Sum(widths[1..])] + Offsets(widths[1..])
  }

  lemma {:induction false} OffsetsFrom(widths: seq<nat>, k: nat)
    requires k <= |widths|
    ensures Offsets(widths)[k..] == Offsets(widths[k..])
    ensures k < |widths| ==>
              && Sum(widths[k..]) == widths[k] + Sum(widths[k + 1..])
              && Offsets(widths)[k] == Sum(widths[k + 1..])
  {
    if k > 0 {
      OffsetsFrom(widths[1..], k - 1);
      assert widths[1..][k - 1..] == widths[k..];
      assert k < |widths| ==> widths[1..][k..] == widths[k + 1..];
    } else {
      assert widths[0..] == widths;
    }
  }

  /** The split loop. */
  method SplitOffsets(widths: seq<nat>) returns (offs: seq<nat>)
    ensures offs == Offsets(widths)
  {
    var width := 0;
    for idx := 0 to |widths|
      invariant width + Sum(widths[idx..]) == Sum(widths[0..])
    {
      assert widths[idx..][1..] == widths[idx + 1..];
      width := width + widths[idx];
    }
    assert widths[|widths|..] == [];
    offs := [];
    for idx := 0 to |widths|
      invariant |offs| == idx && width == Sum(widths[idx..])
      invariant forall j :: 0 <= j < idx ==> offs[j] == Offsets(widths)[j]
    {
      OffsetsFrom(widths, idx);
      var wid := widths[idx];
      assert wid <= width;
      offs := offs + [width - wid];
      width := width - wid;
    }
    assert width == 0;
  }

  function Slice(v: Vec, off: nat, wid: nat): Vec {
    if off + wid <= |v| then v[off..off + wid] else []
  }

  /** The part selects of v for operands of these widths, in source order. */
  function Split(v: Vec, widths: seq<nat>): seq<Vec>
  {
    var offs := Offsets(widths);
    seq(|widths|, i requires 0 <= i < |widths| => Slice(v, offs[i], widths[i]))
  }

  lemma {:induction false} OffsetBound(widths: seq<nat>, i: nat)
    requires i < |widths|
    ensures Offsets(widths)[i] + widths[i] <= Sum(widths)
  {
    if i > 0 {
      OffsetBound(widths[1..], i - 1);
    }
  }

  lemma SliceWithin(v: Vec, n: nat, off: nat, wid: nat)
    requires off + wid <= n <= |v|
    ensures Slice(v[..n], off, wid) == Slice(v, off, wid)
  {
  }

  lemma SplitStep(v: Vec, widths: seq<nat>)
    requires widths != [] && |v| == Sum(widths)
    ensures var rest := Sum(widths[1..]);
            Split(v, widths) == [v[rest..]] + Split(v[..rest], widths[1..])
  {
    var rest := Sum(widths[1..]);
    var a, b := Split(v, widths), [v[rest..]] + Split(v[..rest], widths[1..]);
    forall i: nat | i < |widths|
      ensures a[i] == b[i]
    {
      if i > 0 {
        OffsetBound(widths[1..], i - 1);
        SliceWithin(v, rest, Offsets(widths)[i], widths[i]);
      }
    }
  }

  /** Splitting an l-value concatenation and concatenating the parts gives the vector back. */
  lemma {:induction false} SplitThenCat(v: Vec, widths: seq<nat>)
    requires |v| == Sum(widths)
    ensures Cat(Split(v, widths)) == v
    decreases |widths|
  {
    if widths == [] {
      assert Split(v, widths) == [];
    } else {
      var rest := Sum(widths[1..]);
      SplitStep(v, widths);
      SplitThenCat(v[..rest], widths[1..]);
      var s := Split(v, widths);
      assert s[1..] == Split(v[..rest], widths[1..]);
      assert v == v[..rest] + v[rest..];
    }
  }

  function Widths(vs: seq<Vec>): (ws: seq<nat>)
    ensures |ws| == |vs|
  {
    if vs == [] then [] else [|vs[0]|] + Widths(vs[1..])
  }

  /** And a concatenation splits into its operands. */
  lemma {:induction false} CatThenSplit(vs: seq<Vec>)
    ensures |Cat(vs)| == Sum(Widths(vs)) && Split(Cat(vs), Widths(vs)) == vs
  {
    if vs == [] {
    } else {
      CatThenSplit(vs[1..]);
      assert Widths(vs)[1..] == Widths(vs[1..]);
      SplitStep(Cat(vs), Widths(vs));
      var rest := |Cat(vs[1..])|;
      assert Cat(vs)[..rest] == Cat(vs[1..]) && Cat(vs)[rest..] == vs[0];
      assert vs == [vs[0]] + vs[1..];
    }
  }

  predicate Owns(widths: seq<nat>, k: int, bit: nat) {
    0 <= k < |widths| && Offsets(widths)[k] <= bit < Offsets(widths)[k] + widths[k]
  }

  lemma {:induction false} OffsetsDescend(widths: seq<nat>)
    ensures forall j, k :: 0 <= j < k < |widths| ==> Offsets(widths)[k] + widths[k] <= Offsets(widths)[j]
  {
    if widths != [] {
      OffsetsDescend(widths[1..]);
      forall k | 0 < k < |widths|
        ensures Offsets(widths)[k] + widths[k] <= Offsets(widths)[0]
      {
        OffsetBound(widths[1..], k - 1);
      }
    }
  }

  /** Every bit of the vector goes to exactly one operand, the first operand being most significant. */
  lemma {:induction false} SplitCoversOnce(widths: seq<nat>, bit: nat)
    requires bit < Sum(widths)
    ensures exists k :: Owns(widths, k, bit) && forall j :: Owns(widths, j, bit) ==> j == k
    ensures forall j, k :: 0 <= j < k < |widths| ==> Offsets(widths)[k] + widths[k] <= Offsets(widths)[j]
  {
    OffsetsDescend(widths);
    var rest := Sum(widths[1..]);
    if bit >= rest {
      assert Owns(widths, 0, bit);
      forall j | Owns(widths, j, bit)
        ensures j == 0
      {
      }
    } else {
      SplitCoversOnce(widths[1..], bit);
      var k :| Owns(widths[1..], k, bit) && forall j :: Owns(widths[1..], j, bit) ==> j == k;
      assert Owns(widths, k + 1, bit);
      forall j | Owns(widths, j, bit)
        ensures j == k + 1
      {
        if j > 0 {
          assert Owns(widths[1..], j - 1, bit);
        }
      }
    }
  }

  // ----- the two forms put the same bits in the same places -----

  datatype Piece = Piece(id: nat, bits: Vec)

  function Least(a: nat, b: nat): nat {
    if a < b then a else b
  }

  /** What the chain gives each target: walking it, the widths before add up to the offset. */
  function Dealt(ts: seq<Target>, v: Vec): seq<Piece> {
    if ts == [] then []
    else
      var w := Least(ts[0].wid, |v|);
      [Piece(ts[0].id, v[..w])] + Dealt(ts[1..], v[w..])
  }

  function PatternWidth(p: Pattern): nat {
    TotalWidth(Targets(p))
  }

  function OperandWidths(ps: seq<Pattern>): (ws: seq<nat>)
    ensures |ws| == |ps|
  {
    if ps == [] then [] else [PatternWidth(ps[0])] + OperandWidths(ps[1..])
  }

  /** What nested part selects give each target, least significant first. */
  function Routed(p: Pattern, v: Vec): seq<Piece>
    decreases p, 1
  {
    match p
    case Leaf(id, _, _, _) => [Piece(id, v)]
    case Nest(ps, false) => RoutedAll(ps, v)
    case _ => []
  }

  function RoutedAll(ps: seq<Pattern>, v: Vec): seq<Piece>
    decreases ps, 0
  {
    if ps == [] then []
    else
      var rest := Least(Sum(OperandWidths(ps[1..])), |v|);
      RoutedAll(ps[1..], v[..rest]) + Routed(ps[0], v[rest..])
  }

  /** What the operands get when each is handed its own vector. */
  function Handed(ps: seq<Pattern>, vs: seq<Vec>): seq<Piece>
    requires |vs| == |ps|
  {
    if ps == [] then [] else Handed(ps[1..], vs[1..]) + Routed(ps[0], vs[0])
  }

  /** RoutedAll hands the k-th part of the split loop to the k-th operand, for every k. */
  lemma {:induction false} RoutedBySplit(ps: seq<Pattern>, v: Vec)
    requires |v| == Sum(OperandWidths(ps))
    ensures RoutedAll(ps, v) == Handed(ps, Split(v, OperandWidths(ps)))
    decreases |ps|
  {
    if ps != [] {
      SplitStep(v, OperandWidths(ps));
      RoutedBySplit(ps[1..], v[..Sum(OperandWidths(ps[1..]))]);
      assert Split(v, OperandWidths(ps))[1..] == Split(v[..Sum(OperandWidths(ps[1..]))], OperandWidths(ps[1..]));
    }
  }

  lemma SliceTwice(v: Vec, w: nat, n: nat)
    requires w + n <= |v|
    ensures v[..w + n][w..] == v[w..][..n] && v[w..][n..] == v[w + n..] && v[..w + n][..w] == v[..w]
  {
  }

  lemma {:induction false} DealtAppend(a: seq<Target>, b: seq<Target>, v: Vec)
    requires TotalWidth(a) <= |v|
    ensures Dealt(a + b, v) == Dealt(a, v[..TotalWidth(a)]) + Dealt(b, v[TotalWidth(a)..])
  {
    if a == [] {
      assert a + b == b && v[0..] == v;
    } else {
      assert (a + b)[1..] == a[1..] + b;
      var w := a[0].wid;
      DealtAppend(a[1..], b, v[w..]);
      SliceTwice(v, w, TotalWidth(a[1..]));
    }
  }

  lemma {:induction false} TotalAppend(a: seq<Target>, b: seq<Target>)
    ensures TotalWidth(a + b) == TotalWidth(a) + TotalWidth(b)
  {
    if a == [] {
      assert a + b == b;
    } else {
      assert (a + b)[1..] == a[1..] + b;
      TotalAppend(a[1..], b);
    }
  }

  lemma {:induction false} CleanWidth(ps: seq<Pattern>)
    requires forall j :: 0 <= j < |ps| ==> CleanOperand(ps[j])
    ensures TotalWidth(TargetsAll(ps)) == Sum(OperandWidths(ps))
  {
    if ps != [] {
      CleanWidth(ps[1..]);
      TotalAppend(TargetsAll(ps[1..]), Accepted(ps[0]));
    }
  }

  /** Walking the chain and nesting part selects give every target the same bits. */
  lemma {:induction false} FormsAgree(p: Pattern, v: Vec)
    requires Clean(p) && |v| == PatternWidth(p)
    ensures Routed(p, v) == Dealt(Targets(p), v)
    decreases p, 1
  {
    match p
    case Leaf(id, sigWidth, part, _) =>
      var w := LeafWidth(sigWidth, part);
      var one := [Target(id, w)];
      assert Targets(p) == one && one[1..] == [];
      assert TotalWidth(one) == w && v[..w] == v;
      assert Dealt(one[1..], v[w..]) == [];
    case Nest(ps, _) => FormsAgreeAll(ps, v);
  }

  lemma {:induction false} FormsAgreeAll(ps: seq<Pattern>, v: Vec)
    requires (forall j :: 0 <= j < |ps| ==> CleanOperand(ps[j])) && |v| == TotalWidth(TargetsAll(ps))
    ensures RoutedAll(ps, v) == Dealt(TargetsAll(ps), v)
    decreases ps, 0
  {
    if ps != [] {
      CleanWidth(ps);
      CleanWidth(ps[1..]);
      var rest := Sum(OperandWidths(ps[1..]));
      TotalAppend(TargetsAll(ps[1..]), Accepted(ps[0]));
      FormsAgreeAll(ps[1..], v[..rest]);
      FormsAgree(ps[0], v[rest..]);
      DealtAppend(TargetsAll(ps[1..]), Accepted(ps[0]), v);
    }
  }

  lemma {:induction false} DealtLength(ts: seq<Target>, v: Vec)
    ensures |Dealt(ts, v)| == |ts|
  {
    if ts != [] {
      DealtLength(ts[1..], v[Least(ts[0].wid, |v|)..]);
    }
  }

  /** The k-th target's place in the vector: the widths of the targets before it. */
  lemma {:induction false} DealtAt(ts: seq<Target>, v: Vec, k: nat)
    requires k < |ts| && TotalWidth(ts) == |v|
    ensures var off := TotalWidth(ts[..k]);
            && |Dealt(ts, v)| == |ts| && off + ts[k].wid <= |v|
            && Dealt(ts, v)[k] == Piece(ts[k].id, v[off..off + ts[k].wid])
  {
    DealtLength(ts, v);
    var w := ts[0].wid;
    if k > 0 {
      DealtAt(ts[1..], v[w..], k - 1);
      assert ts[..k][1..] == ts[1..][..k - 1];
    }
  }
}
