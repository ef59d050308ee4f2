/** Transparent cubes: services without ports that sit in an ordered list in front
    of a port or a netdev.  Linking a list makes each program jump to its
    neighbour; the links are compiled into programs kept in the eBPF maps. */
module TransparentCubes {
  import opened ServiceChain

  const PORT_SHIFT := 0x1_0000

  /** A value of the peers table: `info` packs the next index (low 16 bits) with a
      port id (high 16 bits). */
  datatype PeerInfo = PeerInfo(info: nat, netdev: bool)

  /** The contents of the eBPF maps, which outlive any single operation. */
  datatype Maps = Maps(
    tc: map<nat, Program>,                // patch panel of the TC hook
    xdp: map<nat, Program>,               // patch panel of the XDP hook
    peers: map<(nat, nat), PeerInfo>,     // (cube, port) -> peer
    egressNext: map<(nat, nat), nat>,     // after a TC egress program
    egressNextXdp: map<(nat, nat), nat>)  // after an XDP egress program
  {
    function Panel(onXdp: bool): map<nat, Program> {
      if onXdp then xdp else tc
    }
  }

  /** Only programs with an index in `xdpKeys` (XDP panel) and `tcKeys` (TC panel)
      and table slots in `slots` differ. */
  ghost predicate Within(m: Maps, m': Maps, xdpKeys: set<nat>, tcKeys: set<nat>, slots: set<(nat, nat)>) {
    && Agree(m.xdp, m'.xdp, xdpKeys)
    && Agree(m.tc, m'.tc, tcKeys)
    && Agree(m.peers, m'.peers, slots)
    && Agree(m.egressNext, m'.egressNext, slots)
    && Agree(m.egressNextXdp, m'.egressNextXdp, slots)
  }

  ghost predicate SameTables(m: Maps, m': Maps) {
    m'.peers == m.peers && m'.egressNext == m.egressNext && m'.egressNextXdp == m.egressNextXdp
  }

  lemma WithinTrans(a: Maps, b: Maps, c: Maps, xdpKeys: set<nat>, tcKeys: set<nat>, slots: set<(nat, nat)>)
    requires Within(a, b, xdpKeys, tcKeys, slots) && Within(b, c, xdpKeys, tcKeys, slots)
    ensures Within(a, c, xdpKeys, tcKeys, slots)
  {
    AgreeTrans(a.xdp, b.xdp, c.xdp, xdpKeys, xdpKeys, xdpKeys);
    AgreeTrans(a.tc, b.tc, c.tc, tcKeys, tcKeys, tcKeys);
    AgreeTrans(a.peers, b.peers, c.peers, slots, slots, slots);
    AgreeTrans(a.egressNext, b.egressNext, c.egressNext, slots, slots, slots);
    AgreeTrans(a.egressNextXdp, b.egressNextXdp, c.egressNextXdp, slots, slots, slots);
  }

  lemma WithinGrow(a: Maps, b: Maps, xdpKeys: set<nat>, tcKeys: set<nat>, slots: set<(nat, nat)>,
                   xdpKeys': set<nat>, tcKeys': set<nat>, slots': set<(nat, nat)>)
    requires Within(a, b, xdpKeys, tcKeys, slots)
    requires xdpKeys <= xdpKeys' && tcKeys <= tcKeys' && slots <= slots'
    ensures Within(a, b, xdpKeys', tcKeys', slots')
  {
  }

  datatype Direction = INGRESS | EGRESS

  /** The eBPF maps, and a register of the transparent cubes whose programs they hold. */
  class Kernel {
    var maps: Maps
    ghost var cubes: set<TransparentCube>
    ghost var current: set<TransparentCube>    // cubes whose TC copy is known to be current

    constructor ()
      ensures maps == Maps(map[], map[], map[], map[], map[]) && cubes == {} && Valid()
    {
      maps := Maps(map[], map[], map[], map[], map[]);
      cubes, current := {}, {};
    }

    /** Every compiled program agrees with its cube and no index is shared. */
    ghost predicate Valid()
      reads this, cubes`next
    {
      && (forall c :: c in cubes ==> c.kernel == this && c.Loaded(maps))
      && (forall c :: c in cubes && c in current ==> c.CopyFresh(maps))
      && (forall c, d :: c in cubes && d in cubes && c != d ==> c.Keys() !! d.Keys())
    }

    /** Takes programs out of the panel of one hook; what the other hook has under their
        indexes stays. */
    method Unload(onXdp: bool, keys: set<nat>)
      modifies this`maps
      ensures Within(old(maps), maps, keys, keys, {})
      ensures forall k :: k in keys ==> k !in maps.Panel(onXdp)
      ensures maps.Panel(!onXdp) == old(maps.Panel(!onXdp))
    {
      if onXdp {
        maps := maps.(xdp := maps.xdp - keys);
      } else {
        maps := maps.(tc := maps.tc - keys);
      }
    }
  }

  /** The successors a cube's programs have to be compiled with. */
  datatype Successors = Successors(
    ingress: nat,
    egress: Hop,      // of the egress program at the cube's own hook
    egressTc: Hop)    // of the TC copy of an XDP egress program

  /** A service without ports.  Its program of each direction is compiled with the
      successor held in a field. */
  class TransparentCube {
    const kernel: Kernel
    const name: string
    const service: string
    const xdp: bool
    const ingressIndex: nat    // 0 when there is no program
    const egressIndex: nat
    var next: Successors

    /** Indexes come from the patch panel, which never hands out a live one. */
    constructor (kernel: Kernel, name: string, service: string, xdp: bool, ingressIndex: nat, egressIndex: nat)
      requires kernel.Valid()
      requires ingressIndex < MAX_NODES && egressIndex < MAX_NODES && (ingressIndex == 0 || ingressIndex != egressIndex)
      requires forall c :: c in kernel.cubes ==> c.Keys() !! {ingressIndex, egressIndex}
      modifies kernel
      ensures this.kernel == kernel && this.name == name && this.service == service && this.xdp == xdp
      ensures this.ingressIndex == ingressIndex && this.egressIndex == egressIndex
      ensures kernel.Valid() && kernel.cubes == old(kernel.cubes) + {this} && kernel.current == old(kernel.current)
      ensures Within(old(kernel.maps), kernel.maps, Keys(), Keys(), {}) && SameTables(old(kernel.maps), kernel.maps)
    {
      this.kernel, this.name, this.service, this.xdp := kernel, name, service, xdp;
      this.ingressIndex, this.egressIndex := ingressIndex, egressIndex;
      next := Successors(0, Hop(0, false), Hop(0, false));
      new;
      ghost var m := kernel.maps;
      ReloadAll();
      OthersLoaded(m, kernel.maps);
      kernel.cubes := kernel.cubes + {this};
    }

    function Keys(): set<nat> {
      {ingressIndex, egressIndex} - {0}
    }

    function Index(d: Direction): nat {
      if d == INGRESS then ingressIndex else egressIndex
    }

    /** The programs that recompiling for direction d can change, per panel. */
    ghost function XdpKeys(d: Direction): set<nat> {
      if xdp then {Index(d)} - {0} else {}
    }

    ghost function TcKeys(d: Direction): set<nat> {
      {if xdp then egressIndex else Index(d)} - {0}
    }

    /** The TC copy of an XDP egress program is compiled with the current field. */
    ghost predicate CopyFresh(m: Maps)
      reads this`next
    {
      xdp ==> Runs(m.tc, egressIndex, next.egressTc)
    }

    /** The compiled programs agree with the fields.  The TC copy is the exception:
        it can be stale while both successors name the same netdev. */
    ghost predicate Loaded(m: Maps)
      reads this`next
    {
      && (ingressIndex == 0 || ingressIndex != egressIndex)
      && ingressIndex < MAX_NODES && egressIndex < MAX_NODES
      && Runs(m.Panel(xdp), ingressIndex, Hop(next.ingress, false))
      && Runs(m.Panel(xdp), egressIndex, next.egress)
      && (xdp && (next.egressTc != next.egress || !next.egress.netdev) ==> CopyFresh(m))
      && (xdp && !next.egress.netdev ==> next.egressTc == next.egress)
    }

    /** Recompiles every program with the current fields. */
    method ReloadAll()
      requires ingressIndex == 0 || ingressIndex != egressIndex
      modifies kernel`maps
      ensures Runs(kernel.maps.Panel(xdp), ingressIndex, Hop(next.ingress, false))
      ensures Runs(kernel.maps.Panel(xdp), egressIndex, next.egress)
      ensures CopyFresh(kernel.maps)
      ensures SameTables(old(kernel.maps), kernel.maps)
      ensures Agree(old(kernel.maps.xdp), kernel.maps.xdp, if xdp then Keys() else {})
      ensures Agree(old(kernel.maps.tc), kernel.maps.tc, if xdp then {egressIndex} - {0} else Keys())
    {
      if ingressIndex != 0 {
        Load(xdp, ingressIndex, Hop(next.ingress, false));
      }
      if egressIndex != 0 {
        Load(xdp, egressIndex, next.egress);
        if xdp {
          Load(false, egressIndex, next.egressTc);
        }
      }
    }

    method Load(onXdp: bool, index: nat, next: Hop)
      modifies kernel`maps
      ensures kernel.maps == if onXdp then old(kernel.maps).(xdp := old(kernel.maps.xdp)[index := Transparent(next)])
                             else old(kernel.maps).(tc := old(kernel.maps.tc)[index := Transparent(next)])
    {
      if onXdp {
        kernel.maps := kernel.maps.(xdp := kernel.maps.xdp[index := Transparent(next)]);
      } else {
        kernel.maps := kernel.maps.(tc := kernel.maps.tc[index := Transparent(next)]);
      }
    }

    /** The programs stay loaded when only others change. */
    lemma StillLoaded(m: Maps, m': Maps, keys: set<nat>)
      requires Within(m, m', keys, keys, {}) && Keys() !! keys
      ensures Loaded(m) ==> Loaded(m')
      ensures CopyFresh(m) ==> CopyFresh(m')
    {
      assert ingressIndex != 0 ==> ingressIndex in Keys();
      assert egressIndex != 0 ==> egressIndex in Keys();
      assert ingressIndex != 0 ==> SameAt(m.tc, m'.tc, ingressIndex) && SameAt(m.xdp, m'.xdp, ingressIndex);
      assert egressIndex != 0 ==> SameAt(m.tc, m'.tc, egressIndex) && SameAt(m.xdp, m'.xdp, egressIndex);
    }

    /** Recompiling this cube leaves the programs of the others alone. */
    lemma OthersLoaded(m: Maps, m': Maps)
      requires forall c :: c in kernel.cubes && c != this ==> c.Keys() !! Keys()
      requires Within(m, m', Keys(), Keys(), {})
      ensures forall c :: c in kernel.cubes && c != this && c.Loaded(m) ==> c.Loaded(m')
      ensures forall c :: c in kernel.cubes && c != this && c.CopyFresh(m) ==> c.CopyFresh(m')
    {
      forall c | c in kernel.cubes && c != this
        ensures c.Loaded(m) ==> c.Loaded(m')
        ensures c.CopyFresh(m) ==> c.CopyFresh(m')
      {
        c.StillLoaded(m, m', Keys());
      }
    }

    /** Sets the successor of one program; an ingress program cannot be followed by
        a netdev.  Nothing is recompiled when the cube's own successor is unchanged,
        which leaves the TC copy stale exactly when it held another successor. */
    method SetNext(index: nat, d: Direction, netdev: bool) returns (ok: bool)
      requires kernel.Valid() && this in kernel.cubes
      modifies this`next, kernel`maps, kernel`current
      ensures ok == !(d == INGRESS && netdev)
      ensures kernel.Valid() && (!ok ==> kernel.maps == old(kernel.maps) && kernel.current == old(kernel.current))
      ensures ok ==> Runs(kernel.maps.Panel(xdp), Index(d), Hop(index, netdev))
      ensures Within(old(kernel.maps), kernel.maps, XdpKeys(d), TcKeys(d), {}) &&
              SameTables(old(kernel.maps), kernel.maps)
      ensures d == INGRESS && xdp && (egressIndex == 0 || this in old(kernel.current)) ==>
                kernel.maps.tc == old(kernel.maps.tc)
      ensures d == EGRESS && xdp && !netdev ==> Runs(kernel.maps.tc, egressIndex, Hop(index, false))
      ensures d == EGRESS && xdp && egressIndex != 0 ==>
                (CopyFresh(kernel.maps) <==>
                   (old(next.egress) == Hop(index, netdev) && netdev ==>
                       Runs(old(kernel.maps.tc), egressIndex, Hop(index, netdev))))
      ensures next == if d == EGRESS
                      then old(next).(egress := Hop(index, netdev),
                                      egressTc := if xdp then Hop(index, netdev) else old(next.egressTc))
                      else if ok then old(next).(ingress := index) else old(next)
      ensures kernel.current == if d == INGRESS then old(kernel.current)
                              else if netdev then old(kernel.current) - {this} else old(kernel.current) + {this}
    {
      ghost var m := kernel.maps;
      if d == INGRESS {
        if netdev { return false; }
        if next.ingress == index { return true; }
        next := next.(ingress := index);
      } else {
        kernel.current := if netdev then kernel.current - {this} else kernel.current + {this};
        if xdp {
          next := next.(egressTc := Hop(index, netdev));
        }
        if next.egress == Hop(index, netdev) { return true; }
        next := next.(egress := Hop(index, netdev));
      }
      ReloadAll();
      WithinGrow(m, kernel.maps, if xdp then Keys() else {}, if xdp then {egressIndex} - {0} else Keys(), {},
                 Keys(), Keys(), {});
      OthersLoaded(m, kernel.maps);
      if d == INGRESS && xdp && (egressIndex == 0 || this in kernel.current) {
        SameProgram(m.tc, kernel.maps.tc, egressIndex, next.egressTc);
      }
      ok := true;
    }

    /** Sets different successors for the XDP egress program and its TC copy. */
    method SetEgressNext(nextXdp: Hop, nextTc: Hop)
      requires kernel.Valid() && this in kernel.cubes && xdp && nextXdp.netdev
      modifies this`next, kernel`maps, kernel`current
      ensures kernel.Valid() && kernel.current == old(kernel.current) + {this}
      ensures Runs(kernel.maps.xdp, egressIndex, nextXdp) && Runs(kernel.maps.tc, egressIndex, nextTc)
      ensures Within(old(kernel.maps), kernel.maps, XdpKeys(EGRESS), TcKeys(EGRESS), {}) &&
              SameTables(old(kernel.maps), kernel.maps)
    {
      ghost var m := kernel.maps;
      next := next.(egress := nextXdp, egressTc := nextTc);
      kernel.current := kernel.current + {this};
      ReloadAll();
      WithinGrow(m, kernel.maps, Keys(), {egressIndex} - {0}, {}, Keys(), Keys(), {});
      OthersLoaded(m, kernel.maps);
    }
  }

  // ------------------------------------------------------- lists of cubes

  function Indices(cubes: seq<TransparentCube>, d: Direction): (r: Indexes)
    ensures |r| == |cubes| && forall i :: 0 <= i < |r| ==> r[i] == cubes[i].Index(d)
  {
    seq(|cubes|, i requires 0 <= i < |cubes| => cubes[i].Index(d))
  }

  ghost function XdpKeys(cubes: seq<TransparentCube>, xdp: bool, d: Direction): set<nat> {
    if xdp then Members(Indices(cubes, d)) else {}
  }

  ghost function TcKeys(cubes: seq<TransparentCube>, xdp: bool, d: Direction): set<nat> {
    Members(Indices(cubes, if xdp then EGRESS else d))
  }

  /** Distinct registered cubes of one hook. */
  ghost predicate Listed(cubes: seq<TransparentCube>, kernel: Kernel, xdp: bool)
    reads kernel`cubes
  {
    && (forall i :: 0 <= i < |cubes| ==> cubes[i] in kernel.cubes && cubes[i].xdp == xdp)
    && (forall i, j :: 0 <= i < j < |cubes| ==> cubes[i] != cubes[j])
  }

  /** None of the first n cubes is outside `current` and has a TC copy that could be
      stale. */
  ghost predicate CurrentTo(cubes: seq<TransparentCube>, n: nat, current: set<TransparentCube>) {
    forall i :: 0 <= i < n && i < |cubes| ==> cubes[i].egressIndex == 0 || cubes[i] in current
  }

  /** No TC copy of the list is stale. */
  ghost predicate AllCurrent(cubes: seq<TransparentCube>, kernel: Kernel)
    reads kernel`current
  {
    CurrentTo(cubes, |cubes|, kernel.current)
  }

  lemma CurrentStep(cubes: seq<TransparentCube>, i: nat, before: set<TransparentCube>, after: set<TransparentCube>)
    requires i < |cubes| && CurrentTo(cubes, i, before) && before <= after
    requires cubes[i].egressIndex == 0 || cubes[i] in after
    ensures CurrentTo(cubes, i + 1, after)
  {
  }

  /** Relinking direction d of a list changed nothing but the programs of that
      direction and, at the TC hook, the copies of XDP egress programs. */
  ghost predicate Relinked(cubes: seq<TransparentCube>, xdp: bool, d: Direction, m: Maps, m': Maps) {
    Within(m, m', XdpKeys(cubes, xdp, d), TcKeys(cubes, xdp, d), {}) && SameTables(m, m')
  }

  lemma RelinkedTrans(cubes: seq<TransparentCube>, xdp: bool, d: Direction, a: Maps, b: Maps, c: Maps)
    requires Relinked(cubes, xdp, d, a, b) && Relinked(cubes, xdp, d, b, c)
    ensures Relinked(cubes, xdp, d, a, c)
  {
    WithinTrans(a, b, c, XdpKeys(cubes, xdp, d), TcKeys(cubes, xdp, d), {});
  }

  lemma OneRelinked(cubes: seq<TransparentCube>, i: nat, xdp: bool, d: Direction, m: Maps, m': Maps)
    requires i < |cubes| && cubes[i].xdp == xdp
    requires Within(m, m', cubes[i].XdpKeys(d), cubes[i].TcKeys(d), {}) && SameTables(m, m')
    ensures Relinked(cubes, xdp, d, m, m')
  {
  }

  lemma KeyOwner(c: TransparentCube, e: TransparentCube, dc: Direction, de: Direction, kernel: Kernel)
    requires kernel.Valid() && c in kernel.cubes && e in kernel.cubes
    requires c.Index(dc) == e.Index(de) != 0
    ensures c == e && dc == de
  {
    assert c.Index(dc) in c.Keys() && c.Index(dc) in e.Keys();
    assert c.Loaded(kernel.maps);
  }

  /** Lists without a common cube have no common program. */
  lemma ListsApart(a: seq<TransparentCube>, b: seq<TransparentCube>, da: Direction, db: Direction, kernel: Kernel)
    requires kernel.Valid()
    requires forall i :: 0 <= i < |a| ==> a[i] in kernel.cubes
    requires forall i :: 0 <= i < |b| ==> b[i] in kernel.cubes
    requires (a == b && da != db) || forall i, j :: 0 <= i < |a| && 0 <= j < |b| ==> a[i] != b[j]
    ensures Members(Indices(a, da)) !! Members(Indices(b, db))
  {
    if k :| k in Members(Indices(a, da)) && k in Members(Indices(b, db)) {
      var i :| 0 <= i < |a| && Indices(a, da)[i] == k;
      var j :| 0 <= j < |b| && Indices(b, db)[j] == k;
      KeyOwner(a[i], b[j], da, db, kernel);
    }
  }

  lemma ListedIsInjective(cubes: seq<TransparentCube>, d: Direction, kernel: Kernel, xdp: bool)
    requires kernel.Valid() && Listed(cubes, kernel, xdp)
    ensures Injective(Indices(cubes, d)) && InPanel(Indices(cubes, d))
  {
    var idx := Indices(cubes, d);
    forall i | 0 <= i < |idx| ensures idx[i] < MAX_NODES {
      assert cubes[i].Loaded(kernel.maps);
    }
    forall i, j | 0 <= i < j < |idx| && idx[i] != 0 ensures idx[i] != idx[j] {
      assert cubes[i] != cubes[j] && cubes[i].Keys() !! cubes[j].Keys();
      assert idx[i] in cubes[i].Keys();
    }
  }

  /** Links every program of direction d to the previous one in the list and the
      first one to `base`; returns the index of the last program. */
  method LinkDown(cubes: seq<TransparentCube>, d: Direction, base: nat, kernel: Kernel, ghost xdp: bool)
    returns (next: nat)
    requires kernel.Valid() && Listed(cubes, kernel, xdp)
    modifies kernel`maps, kernel`current, kernel.cubes`next
    ensures kernel.Valid() && old(kernel.current) <= kernel.current
    ensures Hop(next, false) == Before(Indices(cubes, d), |cubes|, Hop(base, false))
    ensures LinkedDown(kernel.maps.Panel(xdp), Indices(cubes, d), Hop(base, false))
    ensures Relinked(cubes, xdp, d, old(kernel.maps), kernel.maps)
  {
    next := base;
    ghost var idx, end := Indices(cubes, d), Hop(base, false);
    ListedIsInjective(cubes, d, kernel, xdp);
    for i := 0 to |cubes|
      invariant kernel.Valid() && old(kernel.current) <= kernel.current
      invariant Hop(next, false) == Before(idx, i, end) && LinkedDownTo(kernel.maps.Panel(xdp), idx, i, end)
      invariant Relinked(cubes, xdp, d, old(kernel.maps), kernel.maps)
    {
      ghost var m, head := kernel.maps, Hop(next, false);
      if cubes[i].Index(d) != 0 {
        var _ := cubes[i].SetNext(next, d, false);
        OneRelinked(cubes, i, xdp, d, m, kernel.maps);
        RelinkedTrans(cubes, xdp, d, old(kernel.maps), m, kernel.maps);
        next := cubes[i].Index(d);
      }
      StepDown(m.Panel(xdp), kernel.maps.Panel(xdp), idx, i, end, head);
    }
  }

  /** Links every program of direction d to the next one in the list and the last
      one to `end`; returns the hop to the first program. */
  method LinkUp(cubes: seq<TransparentCube>, d: Direction, end: Hop, kernel: Kernel, ghost xdp: bool)
    returns (head: Hop)
    requires kernel.Valid() && Listed(cubes, kernel, xdp)
    requires d == INGRESS ==> !end.netdev
    modifies kernel`maps, kernel`current, kernel.cubes`next
    ensures kernel.Valid()
    ensures forall c :: c in old(kernel.current) && (c !in cubes || d == INGRESS) ==> c in kernel.current
    ensures head == After(Indices(cubes, d), 0, end)
    ensures LinkedUp(kernel.maps.Panel(xdp), Indices(cubes, d), end)
    ensures Relinked(cubes, xdp, d, old(kernel.maps), kernel.maps)
    ensures d == INGRESS && xdp && old(AllCurrent(cubes, kernel)) ==> kernel.maps.tc == old(kernel.maps.tc)
  {
    head := end;
    ghost var idx, keep := Indices(cubes, d), d == INGRESS && xdp && AllCurrent(cubes, kernel);
    ListedIsInjective(cubes, d, kernel, xdp);
    for i := |cubes| downto 0
      invariant kernel.Valid()
      invariant forall c :: c in old(kernel.current) && (c !in cubes || d == INGRESS) ==> c in kernel.current
      invariant head == After(idx, i, end) && LinkedUpFrom(kernel.maps.Panel(xdp), idx, i, end)
      invariant head.netdev ==> end.netdev
      invariant Relinked(cubes, xdp, d, old(kernel.maps), kernel.maps)
      invariant keep ==> AllCurrent(cubes, kernel) && kernel.maps.tc == old(kernel.maps.tc)
    {
      ghost var m, next := kernel.maps, head;
      if cubes[i].Index(d) != 0 {
        var _ := cubes[i].SetNext(head.next, d, head.netdev);
        OneRelinked(cubes, i, xdp, d, m, kernel.maps);
        RelinkedTrans(cubes, xdp, d, old(kernel.maps), m, kernel.maps);
        head := Hop(cubes[i].Index(d), false);
      }
      StepUp(m.Panel(xdp), kernel.maps.Panel(xdp), idx, i, end, next);
    }
  }

  /** The first egress program of an XDP netdev gets different successors at the two
      hooks, the others the same one. */
  method LinkEgressOne(cubes: seq<TransparentCube>, i: nat, first: bool, ifindex: nat, next: nat, kernel: Kernel)
    requires kernel.Valid() && Listed(cubes, kernel, true) && i < |cubes| && (first ==> next == PASS)
    modifies kernel`maps, kernel`current, kernel.cubes`next
    ensures kernel.Valid() && kernel.current == old(kernel.current) + {cubes[i]}
    ensures Runs(kernel.maps.xdp, cubes[i].egressIndex, if first then Hop(ifindex, true) else Hop(next, false))
    ensures Runs(kernel.maps.tc, cubes[i].egressIndex, Hop(next, false))
    ensures Agree(old(kernel.maps.xdp), kernel.maps.xdp, {cubes[i].egressIndex} - {0})
    ensures Agree(old(kernel.maps.tc), kernel.maps.tc, {cubes[i].egressIndex} - {0})
    ensures Relinked(cubes, true, EGRESS, old(kernel.maps), kernel.maps)
  {
    ghost var m := kernel.maps;
    if first {
      cubes[i].SetEgressNext(Hop(ifindex, true), Hop(PASS, false));
    } else {
      var _ := cubes[i].SetNext(next, EGRESS, false);
    }
    OneRelinked(cubes, i, true, EGRESS, m, kernel.maps);
  }

  /** Links the egress programs of an XDP netdev: the first XDP program redirects to
      the netdev while its TC copy passes the packet. */
  method LinkEgressXdp(cubes: seq<TransparentCube>, ifindex: nat, kernel: Kernel)
    returns (next: nat, first: bool)
    requires kernel.Valid() && Listed(cubes, kernel, true)
    modifies kernel`maps, kernel`current, kernel.cubes`next
    ensures kernel.Valid() && old(kernel.current) <= kernel.current && AllCurrent(cubes, kernel)
    ensures Hop(next, false) == Before(Indices(cubes, EGRESS), |cubes|, Hop(PASS, false))
    ensures first ==> next == PASS
    ensures LinkedDown(kernel.maps.xdp, Indices(cubes, EGRESS), Hop(ifindex, true))
    ensures LinkedDown(kernel.maps.tc, Indices(cubes, EGRESS), Hop(PASS, false))
    ensures Relinked(cubes, true, EGRESS, old(kernel.maps), kernel.maps)
  {
    first, next := true, PASS;
    ghost var idx, out, pass := Indices(cubes, EGRESS), Hop(ifindex, true), Hop(PASS, false);
    ListedIsInjective(cubes, EGRESS, kernel, true);
    for i := 0 to |cubes|
      invariant kernel.Valid() && old(kernel.current) <= kernel.current
      invariant CurrentTo(cubes, i, kernel.current)
      invariant first ==> next == PASS
      invariant Hop(next, false) == Before(idx, i, pass) && LinkedDownTo(kernel.maps.tc, idx, i, pass)
      invariant (if first then out else Hop(next, false)) == Before(idx, i, out) &&
                LinkedDownTo(kernel.maps.xdp, idx, i, out)
      invariant Relinked(cubes, true, EGRESS, old(kernel.maps), kernel.maps)
    {
      ghost var m, head, copy := kernel.maps, if first then out else Hop(next, false), Hop(next, false);
      ghost var current := kernel.current;
      if cubes[i].egressIndex != 0 {
        LinkEgressOne(cubes, i, first, ifindex, next, kernel);
        first := false;
        RelinkedTrans(cubes, true, EGRESS, old(kernel.maps), m, kernel.maps);
        next := cubes[i].egressIndex;
      }
      CurrentStep(cubes, i, current, kernel.current);
      StepDown(m.xdp, kernel.maps.xdp, idx, i, out, head);
      StepDown(m.tc, kernel.maps.tc, idx, i, pass, copy);
    }
  }

  /** Incremental relinking of a list already linked to `tail`: the last program is
      given a new successor.  Reports whether there is one. */
  method Retarget(cubes: seq<TransparentCube>, k: nat, d: Direction, h: Hop, kernel: Kernel, ghost xdp: bool,
                  ghost tail: Hop)
    requires kernel.Valid() && Listed(cubes, kernel, xdp) && LinkedUp(kernel.maps.Panel(xdp), Indices(cubes, d), tail)
    requires k < |cubes| && k == LastLive(Indices(cubes, d), |cubes|)
    requires d == INGRESS ==> !h.netdev
    modifies kernel`maps, kernel`current, kernel.cubes`next
    ensures kernel.Valid()
    ensures forall c :: c in old(kernel.current) && (c !in cubes || d == INGRESS) ==> c in kernel.current
    ensures LinkedUp(kernel.maps.Panel(xdp), Indices(cubes, d), h)
    ensures After(Indices(cubes, d), 0, h) == After(Indices(cubes, d), 0, tail)
    ensures Relinked(cubes, xdp, d, old(kernel.maps), kernel.maps)
    ensures d == INGRESS && xdp && old(AllCurrent(cubes, kernel)) ==> kernel.maps.tc == old(kernel.maps.tc)
  {
    ghost var m := kernel.maps;
    var _ := cubes[k].SetNext(h.next, d, h.netdev);
    OneRelinked(cubes, k, xdp, d, m, kernel.maps);
    ListedIsInjective(cubes, d, kernel, xdp);
    RetargetLast(m.Panel(xdp), kernel.maps.Panel(xdp), Indices(cubes, d), tail, h);
  }

  /** An XDP cube leaves its netdev and becomes the only cube of a port whose peer is that
      netdev, without egress programs: the XDP program is right, its TC copy is not. */
  method MoveInFront(c: TransparentCube, ifindex: nat, kernel: Kernel)
    requires kernel.Valid() && c in kernel.cubes && c.xdp && c.egressIndex != 0
    modifies kernel`maps, kernel`current, kernel.cubes`next
    ensures kernel.Valid() && Runs(kernel.maps.xdp, c.egressIndex, Hop(ifindex, true))
    ensures c.next.egressTc == Hop(ifindex, true) && !c.CopyFresh(kernel.maps)
  {
    assert Indices([c], EGRESS) == [c.egressIndex];
    var _, _ := LinkEgressXdp([c], ifindex, kernel);
    assert PreviousAt(kernel.maps.xdp, [c.egressIndex], 0, Hop(ifindex, true));
    assert PreviousAt(kernel.maps.tc, [c.egressIndex], 0, Hop(PASS, false));
    var _ := c.SetNext(ifindex, EGRESS, true);
  }
}
