/** Ports of forwarding cubes and external netdevs.  Both own a list of
    transparent cubes and both can be the peer of a port; each relinks its own
    side fully and the peer's side incrementally. */
module Peers {
  import opened ServiceChain
  import opened TransparentCubes

  datatype Peer = NoPeer | ToPort(port: Port) | ToIface(iface: ExtIface)

  /** An index of PASS stands for "straight to the netdev". */
  function HopTo(index: nat, portId: nat): Hop {
    if index == PASS then Hop(portId, true) else Hop(index, false)
  }

  /** The peers table directs packets for `slot` to hop h, tagged with a port id; a
      packed value of 0 is kept as the absence of an entry. */
  ghost predicate Directs(peers: map<(nat, nat), PeerInfo>, slot: (nat, nat), h: Hop, portId: nat) {
    var v := h.next + portId * PORT_SHIFT;
    if v == 0 then slot !in peers else slot in peers && peers[slot] == PeerInfo(v, h.netdev)
  }

  ghost predicate SameEgressTables(m: Maps, m': Maps) {
    m'.egressNext == m.egressNext && m'.egressNextXdp == m.egressNextXdp
  }

  /** A forwarding cube. */
  class Cube {
    const kernel: Kernel
    const id: nat
    const xdp: bool
    const ingressIndex: nat
    const egressIndex: nat     // 0 when the cube has no egress program

    constructor (kernel: Kernel, id: nat, xdp: bool, ingressIndex: nat, egressIndex: nat)
      requires 0 < ingressIndex && ingressIndex != egressIndex
      modifies kernel`maps
      ensures this.kernel == kernel && this.id == id && this.xdp == xdp
      ensures this.ingressIndex == ingressIndex && this.egressIndex == egressIndex
      ensures Loaded(kernel.maps)
      ensures Within(old(kernel.maps), kernel.maps, Keys(), Keys(), {}) && SameTables(old(kernel.maps), kernel.maps)
    {
      this.kernel, this.id, this.xdp := kernel, id, xdp;
      this.ingressIndex, this.egressIndex := ingressIndex, egressIndex;
      new;
      if xdp {
        kernel.maps := kernel.maps.(xdp := kernel.maps.xdp[ingressIndex := Ingress(id)]);
      } else {
        kernel.maps := kernel.maps.(tc := kernel.maps.tc[ingressIndex := Ingress(id)]);
      }
      if egressIndex != 0 {
        if xdp {
          kernel.maps := kernel.maps.(xdp := kernel.maps.xdp[egressIndex := Egress(id)]);
        }
        kernel.maps := kernel.maps.(tc := kernel.maps.tc[egressIndex := Egress(id)]);
      }
    }

    function Keys(): set<nat> {
      {ingressIndex, egressIndex} - {0}
    }

    /** The cube's programs are in the panels; an XDP cube's egress program has the
        same index in both. */
    ghost predicate Loaded(m: Maps) {
      && 0 < ingressIndex != egressIndex
      && ingressIndex in m.Panel(xdp) && m.Panel(xdp)[ingressIndex] == Ingress(id)
      && (egressIndex != 0 ==> egressIndex in m.tc && m.tc[egressIndex] == Egress(id))
      && (egressIndex != 0 && xdp ==> egressIndex in m.xdp && m.xdp[egressIndex] == Egress(id))
    }

    /** The programs stay loaded when only others change. */
    lemma StillLoaded(m: Maps, m': Maps, keys: set<nat>, slots: set<(nat, nat)>)
      requires Loaded(m) && Within(m, m', keys, keys, slots) && Keys() !! keys
      ensures Loaded(m')
    {
      assert ingressIndex in Keys() && (egressIndex != 0 ==> egressIndex in Keys());
      assert SameAt(m.tc, m'.tc, ingressIndex) && SameAt(m.xdp, m'.xdp, ingressIndex);
      assert egressIndex != 0 ==> SameAt(m.tc, m'.tc, egressIndex) && SameAt(m.xdp, m'.xdp, egressIndex);
    }

    method UpdateForwardingTable(port: nat, next: nat, netdev: bool)
      modifies kernel`maps
      ensures kernel.maps == old(kernel.maps).(peers :=
                if next != 0 then old(kernel.maps.peers)[(id, port) := PeerInfo(next, netdev)]
                else old(kernel.maps.peers) - {(id, port)})
    {
      if next != 0 {
        kernel.maps := kernel.maps.(peers := kernel.maps.peers[(id, port) := PeerInfo(next, netdev)]);
      } else {
        kernel.maps := kernel.maps.(peers := kernel.maps.peers - {(id, port)});
      }
    }

    method SetEgressNext(port: nat, index: nat)
      modifies kernel`maps
      ensures kernel.maps == old(kernel.maps).(
                egressNext := old(kernel.maps.egressNext)[(id, port) := index],
                egressNextXdp := if xdp then old(kernel.maps.egressNextXdp)[(id, port) := index]
                  else old(kernel.maps.egressNextXdp))
    {
      kernel.maps := kernel.maps.(egressNext := kernel.maps.egressNext[(id, port) := index]);
      if xdp {
        kernel.maps := kernel.maps.(egressNextXdp := kernel.maps.egressNextXdp[(id, port) := index]);
      }
    }

    method SetEgressNextNetdev(port: nat, ifindex: nat)
      modifies kernel`maps
      ensures kernel.maps == old(kernel.maps).(
                egressNext := old(kernel.maps.egressNext)[(id, port) := PASS],
                egressNextXdp := old(kernel.maps.egressNextXdp)[(id, port) := PORT_SHIFT + ifindex])
    {
      kernel.maps := kernel.maps.(egressNext := kernel.maps.egressNext[(id, port) := PASS]);
      kernel.maps := kernel.maps.(egressNextXdp := kernel.maps.egressNextXdp[(id, port) := PORT_SHIFT + ifindex]);
    }
  }

  /** Programs of a list, in either direction. */
  ghost function Keys(cubes: seq<TransparentCube>): set<nat> {
    Members(Indices(cubes, INGRESS)) + Members(Indices(cubes, EGRESS))
  }

  ghost predicate Disjoint(a: seq<TransparentCube>, b: seq<TransparentCube>) {
    forall i, j :: 0 <= i < |a| && 0 <= j < |b| ==> a[i] != b[j]
  }

  /** Whatever relinking touches belongs to the list. */
  lemma RelinkedInKeys(cubes: seq<TransparentCube>, xdp: bool, d: Direction, m: Maps, m': Maps, slots: set<(nat, nat)>)
    requires Relinked(cubes, xdp, d, m, m')
    ensures Within(m, m', Keys(cubes), Keys(cubes), slots)
  {
  }

  lemma ListKeysApart(a: seq<TransparentCube>, b: seq<TransparentCube>, kernel: Kernel, aXdp: bool, bXdp: bool)
    requires kernel.Valid() && Listed(a, kernel, aXdp) && Listed(b, kernel, bXdp) && Disjoint(a, b)
    ensures Keys(a) !! Keys(b)
  {
    ListsApart(a, b, INGRESS, INGRESS, kernel);
    ListsApart(a, b, INGRESS, EGRESS, kernel);
    ListsApart(a, b, EGRESS, INGRESS, kernel);
    ListsApart(a, b, EGRESS, EGRESS, kernel);
  }

  /** Relinking the ingress and then the egress direction of a list: the ingress links
      stay, and nothing outside the list changed. */
  lemma BothRelinked(cubes: seq<TransparentCube>, kernel: Kernel, xdp: bool, m0: Maps, m1: Maps, m2: Maps, end: Hop)
    requires kernel.Valid() && Listed(cubes, kernel, xdp)
    requires Relinked(cubes, xdp, INGRESS, m0, m1) && Relinked(cubes, xdp, EGRESS, m1, m2)
    ensures LinkedUp(m1.Panel(xdp), Indices(cubes, INGRESS), end) ==>
              LinkedUp(m2.Panel(xdp), Indices(cubes, INGRESS), end)
    ensures LinkedDown(m1.Panel(xdp), Indices(cubes, INGRESS), end) ==>
              LinkedDown(m2.Panel(xdp), Indices(cubes, INGRESS), end)
    ensures SameTables(m0, m2) && Within(m0, m2, Keys(cubes), Keys(cubes), {})
  {
    ListsApart(cubes, cubes, INGRESS, EGRESS, kernel);
    LinkedFrame(m1.Panel(xdp), m2.Panel(xdp), Indices(cubes, INGRESS), Members(Indices(cubes, EGRESS)), end);
    RelinkedInKeys(cubes, xdp, INGRESS, m0, m1, {});
    RelinkedInKeys(cubes, xdp, EGRESS, m1, m2, {});
    WithinTrans(m0, m1, m2, Keys(cubes), Keys(cubes), {});
  }

  /** A port of a forwarding cube. */
  class Port {
    const parent: Cube
    const id: nat
    var cubes: seq<TransparentCube>
    var peer: Peer
    var portIndex: nat        // arbitrary until the first relinking
    ghost var linked: bool    // has been relinked at least once

    constructor (parent: Cube, id: nat, garbage: nat)
      ensures this.parent == parent && this.id == id && cubes == [] && peer == NoPeer && !linked
    {
      this.parent, this.id := parent, id;
      cubes, peer, portIndex, linked := [], NoPeer, garbage, false;
    }

    ghost function Slot(): (nat, nat) {
      (parent.id, id)
    }

    ghost predicate Sane()
      reads this`cubes, parent.kernel`cubes
    {
      Listed(cubes, parent.kernel, parent.xdp)
    }

    function In(): Indexes
      reads this`cubes
    {
      Indices(cubes, INGRESS)
    }

    function Eg(): Indexes
      reads this`cubes
    {
      Indices(cubes, EGRESS)
    }

    function Entry(): Hop {
      Hop(parent.ingressIndex, false)
    }

    function PeerId(): nat
      reads this`peer
    {
      match peer case NoPeer => 0 case ToPort(q) => q.id case ToIface(e) => e.ifindex
    }

    /** How index `index` of the current peer is reached. */
    function Via(index: nat): Hop
      reads this`peer
    {
      HopTo(index, PeerId())
    }

    /** Where the last egress program of this port sends a packet. */
    function Tail(): Hop
      reads this, if peer.ToPort? then {peer.port} else {}, if peer.ToIface? then {peer.iface} else {}
    {
      Via(match peer case NoPeer => 0 case ToPort(q) => q.portIndex case ToIface(e) => e.index)
    }

    /** The port id a packet leaving this port carries. */
    function ForwardId(): nat
      reads this`peer
    {
      if peer.ToPort? then peer.port.id else id
    }

    ghost predicate IngressLinked(m: Maps)
      reads this`cubes, this`portIndex
    {
      && LinkedDown(m.Panel(parent.xdp), In(), Entry())
      && Hop(portIndex, false) == Before(In(), |cubes|, Entry())
    }

    ghost predicate Forwards(m: Maps, tail: Hop)
      reads this`cubes, this`peer
    {
      Directs(m.peers, Slot(), After(Eg(), 0, tail), ForwardId())
    }

    ghost predicate EgressLinked(m: Maps, tail: Hop)
      reads this`cubes, this`peer
    {
      LinkedUp(m.Panel(parent.xdp), Eg(), tail) && Forwards(m, tail)
    }

    /** Recomputes the index that other programs call to enter this port. */
    method CalculateIndex() returns (index: nat)
      ensures Hop(index, false) == Before(In(), |cubes|, Entry())
    {
      for i := |cubes| downto 0
        invariant Before(In(), |cubes|, Entry()) == Before(In(), i, Entry())
      {
        index := cubes[i].ingressIndex;
        if index != 0 { return; }
      }
      index := parent.ingressIndex;
    }

    method UpdateParentFwdTable(next: nat, netdev: bool)
      requires parent.kernel.Valid()
      modifies parent.kernel`maps
      ensures parent.kernel.Valid()
      ensures Directs(parent.kernel.maps.peers, Slot(), Hop(next, netdev), ForwardId())
      ensures parent.kernel.maps == old(parent.kernel.maps).(peers := parent.kernel.maps.peers)
      ensures Within(old(parent.kernel.maps), parent.kernel.maps, {}, {}, {Slot()})
    {
      parent.UpdateForwardingTable(id, next + ForwardId() * PORT_SHIFT, netdev);
    }

    /** The peer now has to be entered through `index`: only the last egress program,
        or else the forwarding entry, is rewritten. */
    method SetNextIndex(index: nat, ghost tail: Hop)
      requires parent.kernel.Valid() && Sane() && LinkedUp(parent.kernel.maps.Panel(parent.xdp), Eg(), tail)
      requires index == PASS ==> peer != NoPeer
      modifies parent.kernel`maps, parent.kernel`current, parent.kernel.cubes`next
      ensures parent.kernel.Valid()
      ensures forall c :: c in old(parent.kernel.current) && c !in cubes ==> c in parent.kernel.current
      ensures index == 0 ==> parent.kernel.maps == old(parent.kernel.maps)
      ensures index != 0 ==> LinkedUp(parent.kernel.maps.Panel(parent.xdp), Eg(), Via(index))
      ensures index != 0 && (old(Forwards(parent.kernel.maps, tail)) || Live(Eg()) == []) ==>
                Forwards(parent.kernel.maps, Via(index))
      ensures SameEgressTables(old(parent.kernel.maps), parent.kernel.maps)
      ensures Within(old(parent.kernel.maps), parent.kernel.maps,
                     XdpKeys(cubes, parent.xdp, EGRESS), TcKeys(cubes, parent.xdp, EGRESS), {Slot()})
    {
      if index == 0 { return; }
      var h := Hop(index, false);
      if index == PASS {
        h := Hop(PeerId(), true);
      }
      for i := |cubes| downto 0
        invariant LastLive(Eg(), |cubes|) == LastLive(Eg(), i)
        invariant parent.kernel.maps == old(parent.kernel.maps) && parent.kernel.Valid()
        invariant parent.kernel.current == old(parent.kernel.current)
      {
        if cubes[i].egressIndex != 0 {
          assert Eg()[i] in Eg() && Eg()[i] in Live(Eg());
          Retarget(cubes, i, EGRESS, h, parent.kernel, parent.xdp, tail);
          return;
        }
      }
      NothingToRetarget(parent.kernel.maps.Panel(parent.xdp), Eg(), h);
      UpdateParentFwdTable(h.next, h.netdev);
    }

    /** Tells the egress program of this port's cube what comes after it.  For an XDP
        port PASS means redirecting to the netdev at the XDP hook. */
    method SetParentEgressNext(index: nat)
      requires parent.xdp && index == PASS ==> peer != NoPeer
      modifies parent.kernel`maps
      ensures parent.kernel.maps == old(parent.kernel.maps).(
                egressNext := parent.kernel.maps.egressNext, egressNextXdp := parent.kernel.maps.egressNextXdp)
      ensures LeavesEgress(parent.kernel.maps, index, PeerId())
      ensures Within(old(parent.kernel.maps), parent.kernel.maps, {}, {}, {Slot()})
    {
      if parent.xdp && index == PASS {
        parent.SetEgressNextNetdev(id, PeerId());
      } else {
        parent.SetEgressNext(id, index);
      }
    }

    function PeerCubes(): seq<TransparentCube>
      reads this`peer, PeerObject()
    {
      match peer case NoPeer => [] case ToPort(q) => q.cubes case ToIface(e) => e.cubes
    }

    ghost function PeerObject(): set<object>
      reads this`peer
    {
      match peer case NoPeer => {} case ToPort(q) => {q} case ToIface(e) => {e}
    }

    /** Table slots an operation on this port can touch. */
    ghost function BothSlots(): set<(nat, nat)>
      reads this`peer
    {
      if peer.ToPort? then {Slot(), peer.port.Slot()} else {Slot()}
    }

    ghost function BothKeys(): set<nat>
      reads this`cubes, this`peer, PeerObject()
    {
      Keys(cubes) + Keys(PeerCubes())
    }

    /** The peer is of the same hook and shares no cube with this port; a peer netdev
        can be scanned for its last ingress program. */
    ghost predicate PeerShape()
      reads this`cubes, this`peer, PeerObject(), parent.kernel`cubes
    {
      && PeerKind()
      && match peer
         case NoPeer => true
         case ToPort(q) => q.Sane() && Disjoint(cubes, q.cubes)
         case ToIface(e) => e.Sane() && Disjoint(cubes, e.cubes) && e.ScanSafe()
    }

    ghost predicate PeerKind()
      reads this`peer
    {
      match peer
      case NoPeer => true
      case ToPort(q) => q != this && q.parent.kernel == parent.kernel && q.parent.xdp == parent.xdp &&
        q.Slot() != Slot()
      case ToIface(e) => e.kernel == parent.kernel && e.xdp == parent.xdp
    }

    /** The side of the peer that leads here is linked to `tail`. */
    ghost predicate PeerLinked(m: Maps, tail: Hop)
      reads this`peer, PeerObject()
    {
      match peer
      case NoPeer => true
      case ToPort(q) => LinkedUp(m.Panel(parent.xdp), q.Eg(), tail)
      case ToIface(e) => e.IngressLinked(m, tail)
    }

    /** The side of the peer that does not lead here. */
    ghost predicate PeerRest(m: Maps)
      reads this`peer, PeerObject()
    {
      match peer
      case NoPeer => true
      case ToPort(q) => LinkedDown(m.Panel(parent.xdp), q.In(), q.Entry())
      case ToIface(e) => e.EgressChained(m)
    }

    ghost predicate PeerCurrent()
      reads this`peer, PeerObject(), parent.kernel`current
    {
      peer.ToIface? && parent.xdp ==> AllCurrent(peer.iface.cubes, parent.kernel)
    }

    /** The peer's side survives changes outside its own programs and slot. */
    lemma PeerFrame(m: Maps, m': Maps, own: set<nat>, tail: Hop)
      requires PeerKind() && Keys(PeerCubes()) !! own && Within(m, m', own, own, {Slot()})
      ensures PeerLinked(m, tail) ==> PeerLinked(m', tail)
      ensures PeerRest(m) ==> PeerRest(m')
      ensures peer.ToPort? && peer.port.Forwards(m, tail) ==> peer.port.Forwards(m', tail)
    {
      match peer
      case NoPeer =>
      case ToPort(q) =>
        LinkedFrame(m.Panel(parent.xdp), m'.Panel(parent.xdp), q.Eg(), own, tail);
        LinkedFrame(m.Panel(parent.xdp), m'.Panel(parent.xdp), q.In(), own, q.Entry());
        assert SameAt(m.peers, m'.peers, q.Slot());
      case ToIface(e) =>
        LinkedFrame(m.Panel(parent.xdp), m'.Panel(parent.xdp), e.In(), own, tail);
        LinkedFrame(m.tc, m'.tc, e.Eg(), own, Hop(PASS, false));
        LinkedFrame(m.xdp, m'.xdp, e.Eg(), own, Hop(e.ifindex, true));
    }

    /** This port's ingress side survives changes outside its own programs. */
    lemma OwnFrame(m: Maps, m': Maps, theirs: set<nat>, slots: set<(nat, nat)>)
      requires Members(In()) !! theirs && Within(m, m', theirs, theirs, slots)
      ensures IngressLinked(m) ==> IngressLinked(m')
    {
      LinkedFrame(m.Panel(parent.xdp), m'.Panel(parent.xdp), In(), theirs, Entry());
    }

    /** Announces this port's entry index to the peer. */
    method TellPeer(next: nat, ghost tail: Hop, ghost keys: set<nat>)
      requires parent.kernel.Valid() && PeerShape() && PeerLinked(parent.kernel.maps, tail)
      requires PeerRest(parent.kernel.maps) && PeerCurrent()
      requires 0 < next < PASS && Keys(PeerCubes()) <= keys
      modifies if peer.ToIface? then {peer.iface} else {}
      modifies parent.kernel`maps, parent.kernel`current, parent.kernel.cubes`next
      ensures parent.kernel.Valid() && PeerLinked(parent.kernel.maps, Hop(next, false))
      ensures PeerRest(parent.kernel.maps) && PeerCurrent()
      ensures forall c :: c in old(parent.kernel.current) && (peer.ToPort? ==> c !in PeerCubes()) ==>
                c in parent.kernel.current
      ensures peer.ToPort? && (old(peer.port.Forwards(parent.kernel.maps, tail)) || Live(peer.port.Eg()) == []) ==>
                peer.port.Forwards(parent.kernel.maps, Hop(next, false))
      ensures peer.ToIface? ==> peer.iface.OnlyIngress()
      ensures SameEgressTables(old(parent.kernel.maps), parent.kernel.maps)
      ensures Within(old(parent.kernel.maps), parent.kernel.maps, keys, keys, BothSlots())
    {
      match peer
      case NoPeer =>
      case ToPort(q) => TellPort(q, next, tail, keys);
      case ToIface(e) => TellIface(e, next, tail, keys);
    }

    method TellPort(q: Port, next: nat, ghost tail: Hop, ghost keys: set<nat>)
      requires parent.kernel.Valid() && peer == ToPort(q) && PeerShape()
      requires LinkedUp(parent.kernel.maps.Panel(parent.xdp), q.Eg(), tail)
      requires LinkedDown(parent.kernel.maps.Panel(parent.xdp), q.In(), q.Entry())
      requires 0 < next < PASS && Keys(q.cubes) <= keys
      modifies parent.kernel`maps, parent.kernel`current, parent.kernel.cubes`next
      ensures parent.kernel.Valid()
      ensures LinkedUp(parent.kernel.maps.Panel(parent.xdp), q.Eg(), Hop(next, false))
      ensures LinkedDown(parent.kernel.maps.Panel(parent.xdp), q.In(), q.Entry())
      ensures forall c :: c in old(parent.kernel.current) && c !in q.cubes ==> c in parent.kernel.current
      ensures old(q.Forwards(parent.kernel.maps, tail)) || Live(q.Eg()) == [] ==>
                q.Forwards(parent.kernel.maps, Hop(next, false))
      ensures SameEgressTables(old(parent.kernel.maps), parent.kernel.maps)
      ensures Within(old(parent.kernel.maps), parent.kernel.maps, keys, keys, BothSlots())
    {
      ghost var m, k, x := parent.kernel.maps, parent.kernel, parent.xdp;
      ListsApart(q.cubes, q.cubes, INGRESS, EGRESS, k);
      q.SetNextIndex(next, tail);
      WithinGrow(m, k.maps, XdpKeys(q.cubes, x, EGRESS), TcKeys(q.cubes, x, EGRESS), {q.Slot()}, keys, keys,
        BothSlots());
      LinkedFrame(m.Panel(x), k.maps.Panel(x), q.In(), Members(q.Eg()), q.Entry());
    }

    method TellIface(e: ExtIface, next: nat, ghost tail: Hop, ghost keys: set<nat>)
      requires parent.kernel.Valid() && peer == ToIface(e) && PeerShape() && PeerCurrent()
      requires e.IngressLinked(parent.kernel.maps, tail) && e.EgressChained(parent.kernel.maps)
      requires 0 < next < PASS && Keys(e.cubes) <= keys
      modifies e, parent.kernel`maps, parent.kernel`current, parent.kernel.cubes`next
      ensures parent.kernel.Valid() && parent.kernel.current >= old(parent.kernel.current)
      ensures e.OnlyIngress()
      ensures e.IngressLinked(parent.kernel.maps, Hop(next, false)) && e.EgressChained(parent.kernel.maps)
      ensures SameEgressTables(old(parent.kernel.maps), parent.kernel.maps)
      ensures Within(old(parent.kernel.maps), parent.kernel.maps, keys, keys, BothSlots())
    {
      ghost var m, k, x := parent.kernel.maps, parent.kernel, parent.xdp;
      ListsApart(e.cubes, e.cubes, INGRESS, EGRESS, k);
      e.SetNextIndex(next, tail);
      WithinGrow(m, k.maps, XdpKeys(e.cubes, x, INGRESS), TcKeys(e.cubes, x, INGRESS), {}, keys, keys, BothSlots());
      LinkedFrame(m.Panel(x), k.maps.Panel(x), e.Eg(), Members(e.In()),
        if x then Hop(e.ifindex, true) else Hop(PASS, false));
    }

    method RelinkIngress(ghost keys: set<nat>)
      requires parent.kernel.Valid() && Sane() && 0 < parent.ingressIndex < MAX_NODES && Keys(cubes) <= keys
      modifies this`portIndex, this`linked, parent.kernel`maps, parent.kernel`current, parent.kernel.cubes`next
      ensures parent.kernel.Valid() && old(parent.kernel.current) <= parent.kernel.current
      ensures IngressLinked(parent.kernel.maps) && 0 < portIndex < MAX_NODES && linked
      ensures SameTables(old(parent.kernel.maps), parent.kernel.maps)
      ensures Within(old(parent.kernel.maps), parent.kernel.maps, Keys(cubes), Keys(cubes), {Slot()})
      ensures Within(old(parent.kernel.maps), parent.kernel.maps, keys, keys, BothSlots())
    {
      linked := true;
      ghost var m := parent.kernel.maps;
      portIndex := LinkDown(cubes, INGRESS, parent.ingressIndex, parent.kernel, parent.xdp);
      BeforeRange(In(), |cubes|, Entry());
      ListedIsInjective(cubes, INGRESS, parent.kernel, parent.xdp);
      RelinkedInKeys(cubes, parent.xdp, INGRESS, m, parent.kernel.maps, {Slot()});
      WithinGrow(m, parent.kernel.maps, Keys(cubes), Keys(cubes), {Slot()}, keys, keys, BothSlots());
    }

    method RelinkEgress(tail: Hop, ghost keys: set<nat>)
      requires parent.kernel.Valid() && Sane() && IngressLinked(parent.kernel.maps) && Keys(cubes) <= keys
      modifies parent.kernel`maps, parent.kernel`current, parent.kernel.cubes`next
      ensures parent.kernel.Valid()
      ensures forall c :: c in old(parent.kernel.current) && c !in cubes ==> c in parent.kernel.current
      ensures IngressLinked(parent.kernel.maps) && EgressLinked(parent.kernel.maps, tail)
      ensures SameEgressTables(old(parent.kernel.maps), parent.kernel.maps)
      ensures Within(old(parent.kernel.maps), parent.kernel.maps, Keys(cubes), Keys(cubes), {Slot()})
      ensures Within(old(parent.kernel.maps), parent.kernel.maps, keys, keys, BothSlots())
    {
      ghost var m, own := parent.kernel.maps, Keys(cubes);
      ListsApart(cubes, cubes, INGRESS, EGRESS, parent.kernel);
      var head := LinkUp(cubes, EGRESS, tail, parent.kernel, parent.xdp);
      LinkedFrame(m.Panel(parent.xdp), parent.kernel.maps.Panel(parent.xdp), In(), Members(Eg()), Entry());
      RelinkedInKeys(cubes, parent.xdp, EGRESS, m, parent.kernel.maps, {Slot()});
      UpdateParentFwdTable(head.next, head.netdev);
      WithinGrow(m, parent.kernel.maps, own, own, {Slot()}, keys, keys, BothSlots());
    }

    /** The ingress half of relinking: this port's entry, announced to the peer. */
    method RelinkEntry(ghost tail: Hop)
      requires parent.kernel.Valid() && Sane() && 0 < parent.ingressIndex < MAX_NODES
      requires PeerShape() && PeerLinked(parent.kernel.maps, tail) && PeerRest(parent.kernel.maps) && PeerCurrent()
      modifies this`portIndex, this`linked, parent.kernel`maps, parent.kernel`current, parent.kernel.cubes`next
      modifies if peer.ToIface? then {peer.iface} else {}
      ensures parent.kernel.Valid() && 0 < portIndex < MAX_NODES && linked
      ensures IngressLinked(parent.kernel.maps)
      ensures PeerLinked(parent.kernel.maps, Hop(portIndex, false)) && PeerRest(parent.kernel.maps)
      ensures forall c :: c in old(parent.kernel.current) && (peer.ToPort? ==> c !in PeerCubes()) ==>
                c in parent.kernel.current
      ensures peer.ToPort? && (old(peer.port.Forwards(parent.kernel.maps, tail)) || Live(peer.port.Eg()) == []) ==>
                peer.port.Forwards(parent.kernel.maps, Hop(portIndex, false))
      ensures peer.ToIface? ==> peer.iface.OnlyIngress()
      ensures SameEgressTables(old(parent.kernel.maps), parent.kernel.maps)
      ensures Within(old(parent.kernel.maps), parent.kernel.maps, old(BothKeys()), old(BothKeys()), BothSlots())
    {
      hide LinkedUp, LinkedDown, Within, Kernel.Valid, Listed;
      ghost var m0, keys, own, theirs := parent.kernel.maps, BothKeys(), Keys(cubes), Keys(PeerCubes());
      PeerApart();
      RelinkIngress(keys);
      ghost var m1 := parent.kernel.maps;
      PeerFrame(m0, m1, own, tail);
      TellPeer(portIndex, tail, theirs);
      ghost var m2 := parent.kernel.maps;
      OwnFrame(m1, m2, theirs, BothSlots());
      WithinGrow(m1, m2, theirs, theirs, BothSlots(), keys, keys, BothSlots());
      WithinTrans(m0, m1, m2, keys, keys, BothSlots());
    }

    /** Relinks this port fully and its peer incrementally. */
    method UpdateIndexes(ghost tail: Hop)
      requires parent.kernel.Valid() && Sane() && 0 < parent.ingressIndex < MAX_NODES
      requires PeerShape() && PeerLinked(parent.kernel.maps, tail) && PeerRest(parent.kernel.maps) && PeerCurrent()
      modifies this`portIndex, this`linked, parent.kernel`maps, parent.kernel`current, parent.kernel.cubes`next
      modifies if peer.ToIface? then {peer.iface} else {}
      ensures parent.kernel.Valid() && 0 < portIndex < MAX_NODES && linked
      ensures IngressLinked(parent.kernel.maps) && EgressLinked(parent.kernel.maps, Tail())
      ensures PeerLinked(parent.kernel.maps, Hop(portIndex, false)) && PeerRest(parent.kernel.maps)
      ensures forall c :: c in old(parent.kernel.current) && c !in cubes && (peer.ToPort? ==> c !in PeerCubes()) ==>
                c in parent.kernel.current
      ensures peer.ToPort? && (old(peer.port.Forwards(parent.kernel.maps, tail)) || Live(peer.port.Eg()) == []) ==>
                peer.port.Forwards(parent.kernel.maps, Hop(portIndex, false))
      ensures peer.ToIface? ==> peer.iface.OnlyIngress()
      ensures SameEgressTables(old(parent.kernel.maps), parent.kernel.maps)
      ensures Within(old(parent.kernel.maps), parent.kernel.maps, old(BothKeys()), old(BothKeys()), BothSlots())
    {
      hide LinkedUp, LinkedDown, Within, Kernel.Valid, Listed;
      ghost var m0, keys, own := parent.kernel.maps, BothKeys(), Keys(cubes);
      PeerApart();
      RelinkEntry(tail);
      ghost var m1 := parent.kernel.maps;
      RelinkEgress(Tail(), keys);
      PeerFrame(m1, parent.kernel.maps, own, Hop(portIndex, false));
      WithinTrans(m0, m1, parent.kernel.maps, keys, keys, BothSlots());
    }

    /** Makes port q the peer and relinks. */
    method SetPeerPort(q: Port, ghost tail: Hop)
      requires parent.kernel.Valid() && Sane() && 0 < parent.ingressIndex < MAX_NODES
      requires q != this && q.parent.kernel == parent.kernel && q.parent.xdp == parent.xdp && q.Slot() != Slot()
      requires q.Sane() && Disjoint(cubes, q.cubes)
      requires LinkedUp(parent.kernel.maps.Panel(parent.xdp), q.Eg(), tail)
      requires LinkedDown(parent.kernel.maps.Panel(parent.xdp), q.In(), q.Entry())
      requires q.Forwards(parent.kernel.maps, tail) || Live(q.Eg()) == []
      modifies this`peer, this`portIndex, this`linked, parent.kernel`maps, parent.kernel`current,
        parent.kernel.cubes`next
      ensures peer == ToPort(q)
      ensures parent.kernel.Valid() && 0 < portIndex < MAX_NODES && linked
      ensures IngressLinked(parent.kernel.maps) && EgressLinked(parent.kernel.maps, HopTo(q.portIndex, q.id))
      ensures LinkedUp(parent.kernel.maps.Panel(parent.xdp), q.Eg(), Hop(portIndex, false))
      ensures LinkedDown(parent.kernel.maps.Panel(parent.xdp), q.In(), q.Entry())
      ensures q.Forwards(parent.kernel.maps, Hop(portIndex, false))
      ensures forall c :: c in old(parent.kernel.current) && c !in cubes && c !in q.cubes ==> c in parent.kernel.current
      ensures Within(old(parent.kernel.maps), parent.kernel.maps, Keys(cubes) + Keys(q.cubes),
              Keys(cubes) + Keys(q.cubes), {Slot(), q.Slot()})
    {
      peer := ToPort(q);
      UpdateIndexes(tail);
    }

    /** Makes netdev e the peer and relinks. */
    method SetPeerIface(e: ExtIface)
      requires parent.kernel.Valid() && Sane() && 0 < parent.ingressIndex < MAX_NODES
      requires e.kernel == parent.kernel && e.xdp == parent.xdp && e.Sane() && Disjoint(cubes, e.cubes) && e.ScanSafe()
      requires e.peer == null && IfaceSettled(e, parent.kernel.maps, parent.kernel)
      modifies this`peer, this`portIndex, this`linked, e, parent.kernel`maps, parent.kernel`current,
        parent.kernel.cubes`next
      ensures peer == ToIface(e) && e.cubes == old(e.cubes) && e.peer == null && e.index == old(e.index)
      ensures parent.kernel.Valid() && 0 < portIndex < MAX_NODES && linked
      ensures IngressLinked(parent.kernel.maps) && EgressLinked(parent.kernel.maps, HopTo(e.index, e.ifindex))
      ensures e.xdp ==> AllCurrent(e.cubes, parent.kernel)
      ensures forall c :: c in old(parent.kernel.current) && c !in cubes ==> c in parent.kernel.current
      ensures Within(old(parent.kernel.maps), parent.kernel.maps, Keys(cubes) + Keys(e.cubes),
              Keys(cubes) + Keys(e.cubes), {Slot()})
    {
      peer := ToIface(e);
      UpdateIndexes(e.IngressTail());
    }

    /** Drops the peer and relinks. */
    method ClearPeer()
      requires parent.kernel.Valid() && Sane() && 0 < parent.ingressIndex < MAX_NODES
      modifies this`peer, this`portIndex, this`linked, parent.kernel`maps, parent.kernel`current,
        parent.kernel.cubes`next
      ensures peer == NoPeer && parent.kernel.Valid() && PortSettled(this, parent.kernel.maps)
      ensures forall c :: c in old(parent.kernel.current) && c !in cubes ==> c in parent.kernel.current
      ensures Within(old(parent.kernel.maps), parent.kernel.maps, Keys(cubes), Keys(cubes), {Slot()})
    {
      peer := NoPeer;
      UpdateIndexes(Hop(0, false));
    }

    /** A change of this port's list of cubes, followed by relinking. */
    method ReplaceCubes(cubes': seq<TransparentCube>)
      requires parent.kernel.Valid() && 0 < parent.ingressIndex < MAX_NODES && Listed(cubes', parent.kernel, parent.xdp)
      requires PortSettled(this, parent.kernel.maps) && PeerKind()
      requires match peer
               case NoPeer => true
               case ToPort(q) => q.Sane() && Disjoint(cubes', q.cubes) && q.peer == ToPort(this) &&
                 PortSettled(q, parent.kernel.maps)
               case ToIface(e) =>
                 && e.Sane() && Disjoint(cubes', e.cubes) && e.ScanSafe() && e.peer == this
                 && IfaceSettled(e, parent.kernel.maps, parent.kernel)
      modifies this`cubes, this`portIndex, this`linked, parent.kernel`maps, parent.kernel`current,
        parent.kernel.cubes`next
      modifies if peer.ToIface? then {peer.iface} else {}
      ensures cubes == cubes' && peer == old(peer) && parent.kernel.Valid() && PortSettled(this, parent.kernel.maps)
      ensures match peer
              case NoPeer => true
              case ToPort(q) => PortSettled(q, parent.kernel.maps)
              case ToIface(e) =>
                && e.cubes == old(e.cubes) && e.peer == this && e.index == old(e.index)
                && IfaceSettled(e, parent.kernel.maps, parent.kernel)
      ensures forall c :: c in old(parent.kernel.current) && c !in cubes && (peer.ToPort? ==> c !in old(PeerCubes()))
                ==> c in parent.kernel.current
      ensures Within(old(parent.kernel.maps), parent.kernel.maps,
                     Keys(cubes') + old(Keys(PeerCubes())), Keys(cubes') + old(Keys(PeerCubes())), old(BothSlots()))
    {
      hide LinkedUp, LinkedDown, Within, Kernel.Valid, Listed;
      cubes := cubes';
      UpdateIndexes(match peer
                    case NoPeer => Hop(0, false)
                    case ToPort(q) => Hop(portIndex, false)
                    case ToIface(e) => Hop(portIndex, false));
      if peer.ToPort? { PeerPortSettled(); }
    }

    /** A peer port that was settled still is once it leads to this port's new index. */
    twostate lemma PeerPortSettled()
      requires peer.ToPort? && peer == old(peer) && peer.port.peer == ToPort(this) && unchanged(peer.port)
      requires peer.port.parent.xdp == parent.xdp && old(PortSettled(peer.port, parent.kernel.maps))
      requires old(portIndex) < MAX_NODES && portIndex < MAX_NODES
      requires PeerLinked(parent.kernel.maps, Hop(portIndex, false)) && PeerRest(parent.kernel.maps)
      requires old(peer.port.Forwards(parent.kernel.maps, Hop(portIndex, false))) || Live(peer.port.Eg()) == [] ==>
                 peer.port.Forwards(parent.kernel.maps, Hop(portIndex, false))
      ensures PortSettled(peer.port, parent.kernel.maps)
    {
      hide LinkedUp, LinkedDown, Directs, Before, After;
    }

    lemma PeerApart()
      requires parent.kernel.Valid() && Sane() && PeerShape()
      ensures Keys(PeerCubes()) !! Keys(cubes)
    {
      match peer
      case NoPeer =>
      case ToPort(q) => ListKeysApart(cubes, q.cubes, parent.kernel, parent.xdp, parent.xdp);
      case ToIface(e) => ListKeysApart(cubes, e.cubes, parent.kernel, parent.xdp, parent.xdp);
    }

    ghost predicate LeavesEgress(m: Maps, index: nat, ifindex: nat) {
      && Slot() in m.egressNext && m.egressNext[Slot()] == index
      && (parent.xdp ==> Slot() in m.egressNextXdp)
      && (parent.xdp ==> m.egressNextXdp[Slot()] == if index == PASS then PORT_SHIFT + ifindex else index)
    }
  }

  datatype Scan = Found(position: nat) | Nothing | OutOfBounds

  /** The search for the last cube with an ingress program, as written: it starts at
      the last cube and steps upwards.  It leaves the list exactly when the last
      cube has no ingress program. */
  method ScanForIngress(idx: Indexes) returns (r: Scan)
    ensures r.Nothing? <==> idx == []
    ensures r.Found? <==> idx != [] && idx[|idx|-1] != 0
    ensures r.Found? ==> r.position == |idx| - 1
    ensures r.OutOfBounds? <==> idx != [] && idx[|idx|-1] == 0
  {
    var i := |idx| - 1;
    while i >= 0
      invariant |idx| - 1 <= i <= |idx|
      invariant i == |idx| ==> idx != [] && idx[|idx|-1] == 0
      decreases |idx| - i
    {
      if i >= |idx| { return OutOfBounds; }
      if idx[i] != 0 { return Found(i); }
      i := i + 1;
    }
    return Nothing;
  }

  /** A network interface of the host. */
  class ExtIface {
    const kernel: Kernel
    const ifindex: nat
    const xdp: bool
    var cubes: seq<TransparentCube>
    var peer: Port?
    var index: nat            // where the peer enters the egress chain
    var ingressNext: nat      // compiled into the program on the interface
    var ingressPort: nat
    var egressNext: nat
    var egressPort: nat

    constructor (kernel: Kernel, ifindex: nat, xdp: bool)
      requires 0 < ifindex < PASS
      ensures this.kernel == kernel && this.ifindex == ifindex && this.xdp == xdp
      ensures cubes == [] && peer == null && 0 < this.ifindex < PASS
      ensures IngressLinked(kernel.maps, IngressTail()) && ingressPort == PeerId() && EgressLinked(kernel.maps)
    {
      this.kernel, this.ifindex, this.xdp := kernel, ifindex, xdp;
      cubes, peer := [], null;
      index, ingressNext, ingressPort, egressNext, egressPort := PASS, PASS, 0, PASS, 0;
    }

    ghost predicate Sane()
      reads this`cubes, kernel`cubes
    {
      Listed(cubes, kernel, xdp) && 0 < ifindex < PASS
    }

    function In(): Indexes
      reads this`cubes
    {
      Indices(cubes, INGRESS)
    }

    function Eg(): Indexes
      reads this`cubes
    {
      Indices(cubes, EGRESS)
    }

    function PeerId(): nat
      reads this`peer
    {
      if peer == null then 0 else peer.id
    }

    /** Where the last ingress program of this interface sends a packet. */
    function IngressTail(): Hop
      reads this`peer, peer
    {
      Hop(if peer == null then PASS else peer.portIndex, false)
    }

    ghost predicate IngressLinked(m: Maps, tail: Hop)
      reads this`cubes, this`ingressNext
    {
      LinkedUp(m.Panel(xdp), In(), tail) && Hop(ingressNext, false) == After(In(), 0, tail)
    }

    function HasPeerProgram(): bool
      reads this`peer
    {
      peer != null && peer.parent.egressIndex != 0
    }

    /** Entry of the interface's own egress list, PASS when it is empty. */
    function EgressHead(): nat
      reads this`cubes
    {
      Before(Eg(), |cubes|, Hop(PASS, false)).next
    }

    /** The egress list is linked at both hooks; at the XDP hook it ends in a
        redirect to this interface, at the TC hook it passes the packet. */
    ghost predicate EgressChained(m: Maps)
      reads this`cubes
    {
      && LinkedDown(m.tc, Eg(), Hop(PASS, false))
      && (xdp ==> LinkedDown(m.xdp, Eg(), Hop(ifindex, true)))
    }

    /** The program on the interface enters the egress chain, through the egress
        program of the peer's cube when there is one. */
    ghost predicate ExitLinked(m: Maps)
      reads this`cubes, this`peer, this`egressNext, this`egressPort
    {
      && (HasPeerProgram() ==> peer.LeavesEgress(m, EgressHead(), ifindex))
      && egressNext == (if HasPeerProgram() then peer.parent.egressIndex else EgressHead())
      && egressPort == PeerId()
    }

    ghost predicate EgressLinked(m: Maps)
      reads this`cubes, this`peer, this`egressNext, this`egressPort, this`index
    {
      EgressChained(m) && ExitLinked(m) && index == (if xdp then egressNext else PASS)
    }

    method SetNext(next: nat, d: Direction)
      modifies this
      ensures ingressNext == if d == INGRESS then next else old(ingressNext)
      ensures ingressPort == if d == INGRESS then PeerId() else old(ingressPort)
      ensures egressNext == if d == EGRESS then next else old(egressNext)
      ensures egressPort == if d == EGRESS then PeerId() else old(egressPort)
      ensures unchanged(`cubes, `peer, `index)
    {
      if d == INGRESS {
        if next == ingressNext && PeerId() == ingressPort { return; }
        ingressNext, ingressPort := next, PeerId();
      } else {
        if next == egressNext && PeerId() == egressPort { return; }
        egressNext, egressPort := next, PeerId();
      }
    }

    /** Only the ingress side of this interface changed. */
    twostate predicate OnlyIngress()
      reads this
    {
      && cubes == old(cubes) && peer == old(peer) && index == old(index)
      && egressNext == old(egressNext) && egressPort == old(egressPort)
      && (old(ingressPort) == PeerId() ==> ingressPort == PeerId())
    }

    ghost predicate ScanSafe()
      reads this`cubes
    {
      cubes == [] || cubes[|cubes|-1].ingressIndex != 0
    }

    /** The peer now has to be entered through `index`. */
    method SetNextIndex(index: nat, ghost tail: Hop)
      requires kernel.Valid() && Sane() && IngressLinked(kernel.maps, tail) && ScanSafe()
      modifies this, kernel`maps, kernel`current, kernel.cubes`next
      ensures kernel.Valid() && kernel.current >= old(kernel.current)
      ensures unchanged(`cubes, `peer, `index, `egressNext, `egressPort)
      ensures IngressLinked(kernel.maps, Hop(index, false))
      ensures ingressPort == if cubes == [] then PeerId() else old(ingressPort)
      ensures Relinked(cubes, xdp, INGRESS, old(kernel.maps), kernel.maps)
      ensures xdp && old(AllCurrent(cubes, kernel)) ==> kernel.maps.tc == old(kernel.maps.tc)
    {
      var r := ScanForIngress(In());
      if r.Found? {
        Retarget(cubes, r.position, INGRESS, Hop(index, false), kernel, xdp, tail);
      } else {
        SetNext(index, INGRESS);
      }
    }

    ghost function PeerSlots(): set<(nat, nat)>
      reads this`peer
    {
      if peer == null then {} else {peer.Slot()}
    }

    function PeerCubes(): seq<TransparentCube>
      reads this`peer, peer
    {
      if peer == null then [] else peer.cubes
    }

    /** The programs of either side. */
    ghost function BothKeys(): set<nat>
      reads this`cubes, this`peer, peer
    {
      Keys(cubes) + Keys(PeerCubes())
    }

    /** The peer, if any, is connected back and shares no cube with this side. */
    ghost predicate PeerShape()
      reads this`cubes, this`peer, kernel`cubes, peer
    {
      peer != null ==>
        && peer.peer == ToIface(this) && peer.parent.kernel == kernel && peer.parent.xdp == xdp
        && peer.Sane() && Disjoint(cubes, peer.cubes)
    }

    /** The egress side of the peer, if any, is linked to this side. */
    ghost predicate PeerLinked(m: Maps)
      reads this`peer, this`index, peer
    {
      peer != null ==> peer.EgressLinked(m, peer.Via(index)) && peer.IngressLinked(m)
    }

    ghost predicate PeerReady(m: Maps)
      reads this`cubes, this`peer, this`index, kernel`cubes, peer
    {
      PeerShape() && PeerLinked(m)
    }

    method LinkIngressList()
      requires kernel.Valid() && Sane()
      modifies this, kernel`maps, kernel`current, kernel.cubes`next
      ensures unchanged(`cubes, `peer, `index, `egressNext, `egressPort)
      ensures kernel.Valid() && old(kernel.current) <= kernel.current
      ensures IngressLinked(kernel.maps, IngressTail()) && ingressPort == PeerId()
      ensures Relinked(cubes, xdp, INGRESS, old(kernel.maps), kernel.maps)
    {
      var head := LinkUp(cubes, INGRESS, IngressTail(), kernel, xdp);
      SetNext(head.next, INGRESS);
      AfterRange(In(), 0, IngressTail());
    }

    /** Links the egress list; returns its entry. */
    method LinkEgressList() returns (next: nat)
      requires kernel.Valid() && Sane()
      modifies kernel`maps, kernel`current, kernel.cubes`next
      ensures kernel.Valid() && old(kernel.current) <= kernel.current && (xdp ==> AllCurrent(cubes, kernel))
      ensures EgressChained(kernel.maps) && 0 < next == EgressHead()
      ensures Relinked(cubes, xdp, EGRESS, old(kernel.maps), kernel.maps)
    {
      if xdp {
        var first;
        next, first := LinkEgressXdp(cubes, ifindex, kernel);
      } else {
        next := LinkDown(cubes, EGRESS, PASS, kernel, xdp);
      }
      BeforeRange(Eg(), |cubes|, Hop(PASS, false));
    }

    /** Links both lists of this interface. */
    method LinkLists(ghost keys: set<nat>, ghost slots: set<(nat, nat)>) returns (next: nat)
      requires kernel.Valid() && Sane() && Keys(cubes) <= keys
      modifies this, kernel`maps, kernel`current, kernel.cubes`next
      ensures unchanged(`cubes, `peer, `index)
      ensures kernel.Valid() && old(kernel.current) <= kernel.current && (xdp ==> AllCurrent(cubes, kernel))
      ensures IngressLinked(kernel.maps, IngressTail()) && ingressPort == PeerId()
      ensures EgressChained(kernel.maps) && 0 < next == EgressHead()
      ensures SameTables(old(kernel.maps), kernel.maps)
      ensures Within(old(kernel.maps), kernel.maps, Keys(cubes), Keys(cubes), {})
      ensures Within(old(kernel.maps), kernel.maps, keys, keys, slots)
    {
      hide LinkedUp, LinkedDown, Within, Kernel.Valid, Listed;
      ghost var m0 := kernel.maps;
      LinkIngressList();
      ghost var m1 := kernel.maps;
      next := LinkEgressList();
      BothRelinked(cubes, kernel, xdp, m0, m1, kernel.maps, IngressTail());
      WithinGrow(m0, kernel.maps, Keys(cubes), Keys(cubes), {}, keys, keys, slots);
    }

    /** Puts the egress program of the peer's cube, if any, before the egress list. */
    method LinkExit(head: nat, ghost keys: set<nat>)
      requires kernel.Valid() && 0 < head == EgressHead()
      requires peer != null ==> peer.peer == ToIface(this) && peer.parent.kernel == kernel && peer.parent.xdp == xdp
      modifies this, kernel`maps
      ensures unchanged(`cubes, `peer, `index, `ingressNext, `ingressPort)
      ensures kernel.Valid() && ExitLinked(kernel.maps) && egressNext != 0
      ensures kernel.maps == old(kernel.maps).(
                egressNext := kernel.maps.egressNext, egressNextXdp := kernel.maps.egressNextXdp)
      ensures Within(old(kernel.maps), kernel.maps, keys, keys, PeerSlots())
    {
      var next := head;
      if HasPeerProgram() {
        peer.SetParentEgressNext(next);
        next := peer.parent.egressIndex;
      }
      SetNext(next, EGRESS);
    }

    /** Announces the new entry of the egress chain to the peer. */
    method TellPeer()
      requires kernel.Valid() && Sane() && PeerReady(kernel.maps) && peer != null && egressNext != 0
      requires EgressChained(kernel.maps) && ExitLinked(kernel.maps) && IngressLinked(kernel.maps, IngressTail())
      modifies kernel`maps, kernel`current, kernel.cubes`next
      ensures kernel.Valid() && forall c :: c in old(kernel.current) && c !in peer.cubes ==> c in kernel.current
      ensures EgressChained(kernel.maps) && ExitLinked(kernel.maps) && IngressLinked(kernel.maps, IngressTail())
      ensures peer.EgressLinked(kernel.maps, peer.Via(egressNext)) && peer.IngressLinked(kernel.maps)
      ensures Within(old(kernel.maps), kernel.maps, Keys(peer.cubes), Keys(peer.cubes), PeerSlots())
    {
      ghost var m, theirs := kernel.maps, Keys(peer.cubes);
      ListKeysApart(cubes, peer.cubes, kernel, xdp, xdp);
      ListsApart(peer.cubes, peer.cubes, INGRESS, EGRESS, kernel);
      peer.SetNextIndex(egressNext, peer.Via(index));
      WithinGrow(m, kernel.maps, XdpKeys(peer.cubes, xdp, EGRESS), TcKeys(peer.cubes, xdp, EGRESS), PeerSlots(),
                 theirs, theirs, PeerSlots());
      LinkedFrame(m.Panel(xdp), kernel.maps.Panel(xdp), peer.In(), Members(peer.Eg()), peer.Entry());
      LinkedFrame(m.Panel(xdp), kernel.maps.Panel(xdp), In(), theirs, IngressTail());
      LinkedFrame(m.tc, kernel.maps.tc, Eg(), theirs, Hop(PASS, false));
      LinkedFrame(m.xdp, kernel.maps.xdp, Eg(), theirs, Hop(ifindex, true));
    }

    /** Relinks this side only. */
    method RelinkSelf()
      requires kernel.Valid() && Sane() && PeerReady(kernel.maps)
      modifies this, kernel`maps, kernel`current, kernel.cubes`next
      ensures unchanged(`cubes, `peer, `index)
      ensures kernel.Valid() && old(kernel.current) <= kernel.current && (xdp ==> AllCurrent(cubes, kernel))
      ensures IngressLinked(kernel.maps, IngressTail()) && ingressPort == PeerId()
      ensures EgressChained(kernel.maps) && ExitLinked(kernel.maps) && egressNext != 0
      ensures PeerLinked(kernel.maps)
      ensures Within(old(kernel.maps), kernel.maps, old(BothKeys()), old(BothKeys()), old(PeerSlots()))
    {
      ghost var m0, own, all, slots := kernel.maps, Keys(cubes), BothKeys(), PeerSlots();
      if peer != null { ListKeysApart(cubes, peer.cubes, kernel, xdp, xdp); }
      var head := LinkLists(all, slots);
      ghost var m1 := kernel.maps;
      LinkExit(head, all);
      WithinTrans(m0, m1, kernel.maps, all, all, slots);
      if peer != null {
        LinkedFrame(m0.Panel(xdp), m1.Panel(xdp), peer.Eg(), own, peer.Via(index));
        LinkedFrame(m0.Panel(xdp), m1.Panel(xdp), peer.In(), own, peer.Entry());
      }
    }

    /** An XDP interface whose entry moved tells its peer. */
    method Announce()
      requires kernel.Valid() && Sane() && PeerReady(kernel.maps) && egressNext != 0 && (!xdp ==> index == PASS)
      requires EgressChained(kernel.maps) && ExitLinked(kernel.maps) && IngressLinked(kernel.maps, IngressTail())
      modifies this`index, kernel`maps, kernel`current, kernel.cubes`next
      ensures kernel.Valid() && forall c :: c in old(kernel.current) && c !in PeerCubes() ==> c in kernel.current
      ensures IngressLinked(kernel.maps, IngressTail()) && EgressLinked(kernel.maps) && PeerLinked(kernel.maps)
      ensures Within(old(kernel.maps), kernel.maps, old(BothKeys()), old(BothKeys()), old(PeerSlots()))
    {
      ghost var m, theirs, all, slots := kernel.maps, Keys(PeerCubes()), BothKeys(), PeerSlots();
      if xdp {
        if peer != null && index != egressNext {
          TellPeer();
          WithinGrow(m, kernel.maps, theirs, theirs, slots, all, all, slots);
        }
        index := egressNext;
      }
    }

    /** Relinks this side; an XDP interface whose entry moved also tells its peer. */
    method UpdateIndexes()
      requires kernel.Valid() && Sane() && PeerReady(kernel.maps) && (!xdp ==> index == PASS)
      modifies this, kernel`maps, kernel`current, kernel.cubes`next
      ensures unchanged(`cubes, `peer)
      ensures kernel.Valid()
      ensures xdp ==> AllCurrent(cubes, kernel)
      ensures forall c :: c in old(kernel.current) && c !in PeerCubes() ==> c in kernel.current
      ensures IngressLinked(kernel.maps, IngressTail()) && ingressPort == PeerId()
      ensures EgressLinked(kernel.maps)
      ensures PeerLinked(kernel.maps)
      ensures Within(old(kernel.maps), kernel.maps, old(BothKeys()), old(BothKeys()), old(PeerSlots()))
    {
      ghost var m0, all, slots := kernel.maps, BothKeys(), PeerSlots();
      RelinkSelf();
      ghost var m1 := kernel.maps;
      Announce();
      WithinTrans(m0, m1, kernel.maps, all, all, slots);
    }

    /** Makes p the peer and relinks; p already leads here. */
    method SetPeer(p: Port)
      requires kernel.Valid() && Sane() && (!xdp ==> index == PASS)
      requires p.peer == ToIface(this) && p.parent.kernel == kernel && p.parent.xdp == xdp && p.Sane() &&
               Disjoint(cubes, p.cubes)
      requires p.EgressLinked(kernel.maps, HopTo(index, ifindex)) && p.IngressLinked(kernel.maps)
      modifies this, kernel`maps, kernel`current, kernel.cubes`next
      ensures cubes == old(cubes) && peer == p && kernel.Valid()
      ensures IfaceSettled(this, kernel.maps, kernel)
      ensures p.EgressLinked(kernel.maps, HopTo(index, ifindex)) && p.IngressLinked(kernel.maps)
      ensures forall c :: c in old(kernel.current) && c !in p.cubes ==> c in kernel.current
      ensures Within(old(kernel.maps), kernel.maps, Keys(cubes) + Keys(p.cubes), Keys(cubes) + Keys(p.cubes),
              {p.Slot()})
    {
      peer := p;
      UpdateIndexes();
    }

    /** A change of this interface's list of cubes, followed by relinking. */
    method ReplaceCubes(cubes': seq<TransparentCube>)
      requires kernel.Valid() && Listed(cubes', kernel, xdp) && 0 < ifindex < PASS && (!xdp ==> index == PASS)
      requires peer != null ==>
                 peer.peer == ToIface(this) && peer.parent.kernel == kernel && peer.parent.xdp == xdp && peer.Sane()
                 && Disjoint(cubes', peer.cubes) && PortSettled(peer, kernel.maps)
      modifies this, kernel`maps, kernel`current, kernel.cubes`next
      ensures cubes == cubes' && peer == old(peer) && kernel.Valid()
      ensures IfaceSettled(this, kernel.maps, kernel) && (peer != null ==> PortSettled(peer, kernel.maps))
      ensures forall c :: c in old(kernel.current) && c !in old(PeerCubes()) ==> c in kernel.current
      ensures Within(old(kernel.maps), kernel.maps, Keys(cubes') + old(Keys(PeerCubes())),
              Keys(cubes') + old(Keys(PeerCubes())), old(PeerSlots()))
    {
      cubes := cubes';
      UpdateIndexes();
    }

    /** Drops the peer and relinks. */
    method ClearPeer()
      requires kernel.Valid() && Sane() && (!xdp ==> index == PASS)
      modifies this, kernel`maps, kernel`current, kernel.cubes`next
      ensures cubes == old(cubes) && peer == null && kernel.Valid()
      ensures IfaceSettled(this, kernel.maps, kernel)
      ensures old(kernel.current) <= kernel.current
      ensures Within(old(kernel.maps), kernel.maps, Keys(cubes), Keys(cubes), {})
    {
      peer := null;
      UpdateIndexes();
    }
  }

  // -------------------------------------------------------- connections

  /** A port agrees with the maps once it has been relinked, which happens before it
      first has a peer or a cube. */
  ghost predicate PortSettled(p: Port, m: Maps)
    reads p, p.PeerObject()
  {
    && (p.linked ==> p.IngressLinked(m) && p.EgressLinked(m, p.Tail()) && 0 < p.portIndex < MAX_NODES)
    && (p.peer != NoPeer || p.cubes != [] ==> p.linked)
  }

  ghost predicate IfaceSettled(e: ExtIface, m: Maps, kernel: Kernel)
    reads e, e.peer, kernel`current
  {
    && e.IngressLinked(m, e.IngressTail()) && e.ingressPort == e.PeerId() && e.EgressLinked(m)
    && (e.xdp ==> AllCurrent(e.cubes, kernel))
  }

  lemma PortFrame(r: Port, m: Maps, m': Maps, keys: set<nat>, slots: set<(nat, nat)>)
    requires Within(m, m', keys, keys, slots) && Keys(r.cubes) !! keys && r.Slot() !in slots
    ensures PortSettled(r, m) ==> PortSettled(r, m')
  {
    var x := r.parent.xdp;
    LinkedFrame(m.Panel(x), m'.Panel(x), r.In(), keys, r.Entry());
    LinkedFrame(m.Panel(x), m'.Panel(x), r.Eg(), keys, r.Tail());
    assert SameAt(m.peers, m'.peers, r.Slot());
  }

  lemma IfaceFrame(e: ExtIface, m: Maps, m': Maps, keys: set<nat>, slots: set<(nat, nat)>, kernel: Kernel)
    requires Within(m, m', keys, keys, slots) && Keys(e.cubes) !! keys
    requires e.peer != null ==> e.peer.Slot() !in slots
    ensures IfaceSettled(e, m, kernel) ==> IfaceSettled(e, m', kernel)
  {
    LinkedFrame(m.Panel(e.xdp), m'.Panel(e.xdp), e.In(), keys, e.IngressTail());
    LinkedFrame(m.tc, m'.tc, e.Eg(), keys, Hop(PASS, false));
    LinkedFrame(m.xdp, m'.xdp, e.Eg(), keys, Hop(e.ifindex, true));
    if e.peer != null {
      assert SameAt(m.egressNext, m'.egressNext, e.peer.Slot());
      assert SameAt(m.egressNextXdp, m'.egressNextXdp, e.peer.Slot());
    }
  }

  /** Two ports of one hook that can be connected to each other. */
  ghost predicate Connectable(p: Port, q: Port, kernel: Kernel)
    reads p, q, kernel`cubes
  {
    && p != q && p.Slot() != q.Slot() && p.parent.xdp == q.parent.xdp && Disjoint(p.cubes, q.cubes)
    && p.parent.kernel == kernel && 0 < p.parent.ingressIndex < MAX_NODES && p.Sane()
    && q.parent.kernel == kernel && 0 < q.parent.ingressIndex < MAX_NODES && q.Sane()
  }

  /** The last egress program of a port without a peer drops the packet. */
  lemma SettledUnpeered(q: Port, m: Maps)
    requires PortSettled(q, m) && q.peer == NoPeer
    ensures LinkedUp(m.Panel(q.parent.xdp), q.Eg(), Hop(0, false))
    ensures LinkedDown(m.Panel(q.parent.xdp), q.In(), q.Entry())
    ensures q.Forwards(m, Hop(0, false)) || Live(q.Eg()) == []
  {
  }

  /** The second half of a connection: p leads to q and q relinks itself to lead to p. */
  method ConnectBack(p: Port, q: Port, kernel: Kernel)
    requires kernel.Valid() && Connectable(p, q, kernel) && p.peer == ToPort(q)
    requires p.IngressLinked(kernel.maps) && p.EgressLinked(kernel.maps, HopTo(q.portIndex, q.id))
    requires 0 < p.portIndex < MAX_NODES && p.linked
    modifies q`peer, q`portIndex, q`linked, kernel`maps, kernel`current, kernel.cubes`next
    ensures q.peer == ToPort(p)
    ensures kernel.Valid() && PortSettled(p, kernel.maps) && PortSettled(q, kernel.maps)
    ensures forall c :: c in old(kernel.current) && c !in p.cubes && c !in q.cubes ==> c in kernel.current
    ensures Within(old(kernel.maps), kernel.maps, Keys(p.cubes) + Keys(q.cubes), Keys(p.cubes) + Keys(q.cubes),
            {p.Slot(), q.Slot()})
  {
    q.SetPeerPort(p, HopTo(q.portIndex, q.id));
  }

  /** Connects two unconnected ports: each in turn relinks itself and tells the other. */
  method ConnectPorts(p: Port, q: Port, kernel: Kernel)
    requires kernel.Valid() && Connectable(p, q, kernel) && p.peer == NoPeer && q.peer == NoPeer
    requires PortSettled(p, kernel.maps) && PortSettled(q, kernel.maps)
    modifies p`peer, p`portIndex, p`linked, q`peer, q`portIndex, q`linked, kernel`maps, kernel`current,
      kernel.cubes`next
    ensures p.peer == ToPort(q) && q.peer == ToPort(p)
    ensures kernel.Valid() && PortSettled(p, kernel.maps) && PortSettled(q, kernel.maps)
    ensures forall c :: c in old(kernel.current) && c !in p.cubes && c !in q.cubes ==> c in kernel.current
    ensures Within(old(kernel.maps), kernel.maps, Keys(p.cubes) + Keys(q.cubes), Keys(p.cubes) + Keys(q.cubes),
            {p.Slot(), q.Slot()})
  {
    ghost var m0, keys, slots := kernel.maps, Keys(p.cubes) + Keys(q.cubes), {p.Slot(), q.Slot()};
    SettledUnpeered(q, m0);
    p.SetPeerPort(q, Hop(0, false));
    ghost var m1 := kernel.maps;
    ConnectBack(p, q, kernel);
    WithinTrans(m0, m1, kernel.maps, keys, keys, slots);
  }

  /** Connects an unconnected port to an unconnected netdev. */
  method ConnectIface(p: Port, e: ExtIface, kernel: Kernel)
    requires kernel.Valid() && p.parent.kernel == kernel && 0 < p.parent.ingressIndex < MAX_NODES && p.Sane()
    requires e.kernel == kernel && e.xdp == p.parent.xdp && e.Sane() && e.ScanSafe() && Disjoint(p.cubes, e.cubes)
    requires e.peer == null && IfaceSettled(e, kernel.maps, kernel) && (!e.xdp ==> e.index == PASS)
    modifies p`peer, p`portIndex, p`linked, e, kernel`maps, kernel`current, kernel.cubes`next
    ensures p.peer == ToIface(e) && e.peer == p && e.cubes == old(e.cubes)
    ensures kernel.Valid() && PortSettled(p, kernel.maps) && IfaceSettled(e, kernel.maps, kernel)
    ensures forall c :: c in old(kernel.current) && c !in p.cubes ==> c in kernel.current
    ensures Within(old(kernel.maps), kernel.maps, Keys(p.cubes) + Keys(e.cubes), Keys(p.cubes) + Keys(e.cubes),
            {p.Slot()})
  {
    ghost var m0, keys := kernel.maps, Keys(p.cubes) + Keys(e.cubes);
    p.SetPeerIface(e);
    ghost var m1 := kernel.maps;
    e.SetPeer(p);
    WithinTrans(m0, m1, kernel.maps, keys, keys, {p.Slot()});
  }

  /** Disconnects two connected ports. */
  method UnconnectPorts(p: Port, q: Port, kernel: Kernel)
    requires kernel.Valid() && Connectable(p, q, kernel)
    modifies p`peer, p`portIndex, p`linked, q`peer, q`portIndex, q`linked, kernel`maps, kernel`current,
      kernel.cubes`next
    ensures p.peer == NoPeer && q.peer == NoPeer
    ensures kernel.Valid() && PortSettled(p, kernel.maps) && PortSettled(q, kernel.maps)
    ensures forall c :: c in old(kernel.current) && c !in p.cubes && c !in q.cubes ==> c in kernel.current
    ensures Within(old(kernel.maps), kernel.maps, Keys(p.cubes) + Keys(q.cubes), Keys(p.cubes) + Keys(q.cubes),
            {p.Slot(), q.Slot()})
  {
    ghost var m0, keys, slots := kernel.maps, Keys(p.cubes) + Keys(q.cubes), {p.Slot(), q.Slot()};
    ListKeysApart(p.cubes, q.cubes, kernel, p.parent.xdp, q.parent.xdp);
    p.ClearPeer();
    ghost var m1 := kernel.maps;
    WithinGrow(m0, m1, Keys(p.cubes), Keys(p.cubes), {p.Slot()}, keys, keys, slots);
    q.ClearPeer();
    PortFrame(p, m1, kernel.maps, Keys(q.cubes), {q.Slot()});
    WithinGrow(m1, kernel.maps, Keys(q.cubes), Keys(q.cubes), {q.Slot()}, keys, keys, slots);
    WithinTrans(m0, m1, kernel.maps, keys, keys, slots);
  }

  /** Disconnects a port from its netdev. */
  method UnconnectIface(p: Port, e: ExtIface, kernel: Kernel)
    requires kernel.Valid() && p.parent.kernel == kernel && 0 < p.parent.ingressIndex < MAX_NODES && p.Sane()
    requires e.kernel == kernel && e.xdp == p.parent.xdp && e.Sane() && Disjoint(p.cubes, e.cubes) &&
             (!e.xdp ==> e.index == PASS)
    modifies p`peer, p`portIndex, p`linked, e, kernel`maps, kernel`current, kernel.cubes`next
    ensures p.peer == NoPeer && e.peer == null && e.cubes == old(e.cubes)
    ensures kernel.Valid() && PortSettled(p, kernel.maps) && IfaceSettled(e, kernel.maps, kernel)
    ensures forall c :: c in old(kernel.current) && c !in p.cubes ==> c in kernel.current
    ensures Within(old(kernel.maps), kernel.maps, Keys(p.cubes) + Keys(e.cubes), Keys(p.cubes) + Keys(e.cubes),
            {p.Slot()})
  {
    ghost var m0, keys := kernel.maps, Keys(p.cubes) + Keys(e.cubes);
    ListKeysApart(p.cubes, e.cubes, kernel, p.parent.xdp, e.xdp);
    p.ClearPeer();
    ghost var m1 := kernel.maps;
    WithinGrow(m0, m1, Keys(p.cubes), Keys(p.cubes), {p.Slot()}, keys, keys, {p.Slot()});
    e.ClearPeer();
    PortFrame(p, m1, kernel.maps, Keys(e.cubes), {});
    WithinGrow(m1, kernel.maps, Keys(e.cubes), Keys(e.cubes), {}, keys, keys, {p.Slot()});
    WithinTrans(m0, m1, kernel.maps, keys, keys, {p.Slot()});
  }
}
