/** What packets do in any network that a run of operations can reach: the walk over
    the programs' indexes always equals the lists. */
module ChainWalks {
  import opened ServiceChain
  import opened TransparentCubes
  import opened Peers
  import opened Topology

  /** The maps as the programs of one hook read them.  An egress program without an
      entry, or with entry 0, drops; at the XDP hook bit 16 marks an interface index,
      and there is no "pass". */
  function Hook(m: Maps, xdp: bool): Tables {
    if xdp then
      Tables(m.xdp, map k | k in m.egressNextXdp && m.egressNextXdp[k] !in {0, PASS} ::
        Hop(m.egressNextXdp[k] % PORT_SHIFT, m.egressNextXdp[k] / PORT_SHIFT == 1))
    else
      Tables(m.tc, map k | k in m.egressNext && m.egressNext[k] != 0 :: Hop(m.egressNext[k], false))
  }

  /** A packet that a forwarding program sends out of the port with this slot. */
  function Sent(m: Maps, xdp: bool, slot: (nat, nat), steps: nat): Trace {
    if slot !in m.peers then Trace([], Dropped)
    else
      var v := m.peers[slot];
      Walk(Hook(m, xdp), Hop(v.info % PORT_SHIFT, v.netdev), v.info / PORT_SHIFT, steps)
  }

  lemma SentWalks(m: Maps, xdp: bool, slot: (nat, nat), h: Hop, portId: nat, steps: nat)
    requires Directs(m.peers, slot, h, portId) && h.next < PORT_SHIFT && (h.next == 0 ==> !h.netdev)
    requires 0 !in m.Panel(xdp)
    ensures Sent(m, xdp, slot, steps) == Walk(Hook(m, xdp), h, portId, steps)
  {
  }

  /** A port's egress list is run first, from the forwarding entry on. */
  lemma EgressWalk(n: Network, p: Port, steps: nat)
    requires n.Valid() && p in n.ports && p.linked && p.Tail().next < PORT_SHIFT &&
             (p.Tail().next == 0 ==> !p.Tail().netdev)
    ensures Sent(n.kernel.maps, p.parent.xdp, p.Slot(), |Live(p.Eg())| + steps)
         == Then(Live(p.Eg()), Walk(Hook(n.kernel.maps, p.parent.xdp), p.Tail(), p.ForwardId(), steps))
  {
    var m, x := n.kernel.maps, p.parent.xdp;
    n.PortFacts(p, m);
    n.KernelFacts();
    hide Network.Valid;
    ListedIsInjective(p.cubes, EGRESS, n.kernel, x);
    AfterRange(p.Eg(), 0, p.Tail());
    SentWalks(m, x, p.Slot(), After(p.Eg(), 0, p.Tail()), p.ForwardId(), |Live(p.Eg())| + steps);
    WalkUp(Hook(m, x), p.Eg(), p.Tail(), p.ForwardId(), steps);
  }

  /** Entering a port: its ingress list from the last cube to the first, then its cube. */
  lemma EntryWalk(n: Network, q: Port, inPort: nat, more: nat)
    requires n.Valid() && q in n.ports && q.linked
    ensures Walk(Hook(n.kernel.maps, q.parent.xdp), Hop(q.portIndex, false), inPort, |Live(q.In())| + 1 + more)
         == Trace(Reverse(Live(q.In())) + [q.parent.ingressIndex], Delivered(q.parent.id, inPort))
  {
    var m, x := n.kernel.maps, q.parent.xdp;
    n.PortFacts(q, m);
    assert q.parent.Loaded(m);
    n.KernelFacts();
    hide Network.Valid;
    ListedIsInjective(q.cubes, INGRESS, n.kernel, x);
    WalkDown(Hook(m, x), q.In(), q.Entry(), inPort, 1 + more);
  }

  lemma TailToPort(n: Network, p: Port, q: Port)
    requires n.Valid() && p in n.ports && p.peer == ToPort(q)
    ensures q in n.ports && q.parent.xdp == p.parent.xdp && p.linked && q.linked
    ensures p.Tail() == Hop(q.portIndex, false) && p.ForwardId() == q.id && 0 < q.portIndex < PORT_SHIFT
  {
    n.PeerFacts(p);
    n.PortFacts(p, n.kernel.maps);
    n.PortFacts(q, n.kernel.maps);
  }

  /** Between connected ports: p's egress cubes 0..N-1, then q's ingress cubes N-1..0,
      then q's cube with q's id as input port. */
  lemma PortToPort(n: Network, p: Port, q: Port, more: nat)
    requires n.Valid() && p in n.ports && p.peer == ToPort(q)
    ensures Sent(n.kernel.maps, p.parent.xdp, p.Slot(), |Live(p.Eg())| + (|Live(q.In())| + 1 + more))
         == Trace(Live(p.Eg()) + Reverse(Live(q.In())) + [q.parent.ingressIndex], Delivered(q.parent.id, q.id))
  {
    hide Network.Valid, Walk, Sent;
    TailToPort(n, p, q);
    EgressWalk(n, p, |Live(q.In())| + 1 + more);
    EntryWalk(n, q, q.id, more);
    assert Live(p.Eg()) + (Reverse(Live(q.In())) + [q.parent.ingressIndex])
        == Live(p.Eg()) + Reverse(Live(q.In())) + [q.parent.ingressIndex];
  }

  /** A port without a peer runs its egress cubes and drops. */
  lemma Unpeered(n: Network, p: Port, more: nat)
    requires n.Valid() && p in n.ports && p.linked && p.peer == NoPeer
    ensures Sent(n.kernel.maps, p.parent.xdp, p.Slot(), |Live(p.Eg())| + more) == Trace(Live(p.Eg()), Dropped)
  {
    EgressWalk(n, p, more);
    n.KernelFacts();
    assert Live(p.Eg()) + [] == Live(p.Eg());
  }

  /** The egress chain of a netdev, at either hook: the egress program of the peer's
      cube, then the cubes from the last to the first. */
  function EgressPrograms(e: ExtIface): seq<nat>
    reads e, e.peer
  {
    (if e.HasPeerProgram() then [e.peer.parent.egressIndex] else []) + Reverse(Live(e.Eg()))
  }

  /** The netdev's own list, walked at its TC copy and, on an XDP netdev, at its XDP
      programs. */
  lemma ExitListWalk(n: Network, e: ExtIface, xdp: bool, inPort: nat, more: nat)
    requires n.Valid() && e in n.ifaces && (xdp ==> e.xdp)
    requires e.EgressChained(n.kernel.maps)
    ensures var end := if xdp then Hop(e.ifindex, true) else Hop(PASS, false);
            Walk(Hook(n.kernel.maps, xdp), Before(e.Eg(), |e.cubes|, end), inPort, |Live(e.Eg())| + more)
              == Trace(Reverse(Live(e.Eg())), if xdp then Redirected(e.ifindex) else Passed)
  {
    n.IfaceFacts(e, n.kernel.maps);
    n.KernelFacts();
    hide Network.Valid;
    ListedIsInjective(e.cubes, EGRESS, n.kernel, e.xdp);
    var end := if xdp then Hop(e.ifindex, true) else Hop(PASS, false);
    WalkDown(Hook(n.kernel.maps, xdp), e.Eg(), end, inPort, more);
    assert Reverse(Live(e.Eg())) + [] == Reverse(Live(e.Eg()));
  }

  /** The entry of a netdev's egress list, as it is stored and as the two hooks enter it. */
  lemma ExitEntry(n: Network, e: ExtIface)
    requires n.Valid() && e in n.ifaces
    ensures var h, out, pass := e.EgressHead(), Hop(e.ifindex, true), Hop(PASS, false);
            && Before(e.Eg(), |e.cubes|, pass) == Hop(h, false) && 0 < h <= PASS
            && Before(e.Eg(), |e.cubes|, out) == HopTo(h, e.ifindex)
    ensures 0 < e.ifindex < PASS
  {
    n.IfaceFacts(e, n.kernel.maps);
    n.KernelFacts();
    hide Network.Valid;
    ListedIsInjective(e.cubes, EGRESS, n.kernel, e.xdp);
    BeforeEnds(e.Eg(), |e.cubes|, Hop(e.ifindex, true), Hop(PASS, false));
  }

  /** The egress program of the peer's cube is loaded and, for that port, leads to the
      netdev's own list. */
  lemma PeerProgramFacts(n: Network, e: ExtIface)
    requires n.Valid() && e in n.ifaces && e.HasPeerProgram()
    ensures e.peer in n.ports && e.peer.parent.xdp == e.xdp && 0 < e.peer.parent.egressIndex < MAX_NODES
    ensures e.peer.parent.Loaded(n.kernel.maps) && e.peer.LeavesEgress(n.kernel.maps, e.EgressHead(), e.ifindex)
  {
    n.IfaceFacts(e, n.kernel.maps);
    n.PeerFacts(e.peer);
    n.PortFacts(e.peer, n.kernel.maps);
  }

  lemma ThroughPeerProgram(n: Network, e: ExtIface, xdp: bool, steps: nat)
    requires n.Valid() && e in n.ifaces && (xdp ==> e.xdp) && e.HasPeerProgram()
    ensures var entry := if xdp then HopTo(e.EgressHead(), e.ifindex) else Hop(e.EgressHead(), false);
            Walk(Hook(n.kernel.maps, xdp), Hop(e.peer.parent.egressIndex, false), e.peer.id, 1 + steps)
              == Then([e.peer.parent.egressIndex], Walk(Hook(n.kernel.maps, xdp), entry, e.peer.id, steps))
  {
    hide Network.Valid;
    PeerProgramFacts(n, e);
    ExitEntry(n, e);
    assert (PORT_SHIFT + e.ifindex) % PORT_SHIFT == e.ifindex && (PORT_SHIFT + e.ifindex) / PORT_SHIFT == 1;
  }

  /** The egress chain of a netdev from its stored entry on: passed at the TC hook,
      redirected to the netdev at the XDP hook, through the same programs. */
  lemma ExitWalk(n: Network, e: ExtIface, xdp: bool, inPort: nat, more: nat)
    requires n.Valid() && e in n.ifaces && (xdp ==> e.xdp) && (e.HasPeerProgram() ==> inPort == e.peer.id)
    ensures var entry := if xdp then HopTo(e.egressNext, e.ifindex) else Hop(e.egressNext, false);
            Walk(Hook(n.kernel.maps, xdp), entry, inPort, |EgressPrograms(e)| + more)
              == Trace(EgressPrograms(e), if xdp then Redirected(e.ifindex) else Passed)
  {
    hide Network.Valid, ExtIface.EgressChained;
    hide Walk, Hook;
    ExitStored(n, e);
    ExitEntry(n, e);
    ExitListWalk(n, e, xdp, inPort, more);
    if e.HasPeerProgram() {
      ThroughPeerProgram(n, e, xdp, |Live(e.Eg())| + more);
    } else {
      assert EgressPrograms(e) == Reverse(Live(e.Eg()));
    }
  }

  lemma ExitStored(n: Network, e: ExtIface)
    requires n.Valid() && e in n.ifaces
    ensures e.EgressChained(n.kernel.maps)
    ensures e.egressNext == if e.HasPeerProgram() then e.peer.parent.egressIndex else e.EgressHead()
    ensures e.HasPeerProgram() ==> 0 < e.peer.parent.egressIndex < MAX_NODES
  {
    n.IfaceFacts(e, n.kernel.maps);
    if e.HasPeerProgram() {
      n.PeerFacts(e.peer);
      n.PortFacts(e.peer, n.kernel.maps);
    }
  }

  /** On the interface itself: the program at its TC egress hook runs the chain and lets
      the packet pass. */
  lemma NetdevEgress(n: Network, e: ExtIface, more: nat)
    requires n.Valid() && e in n.ifaces
    ensures Walk(Hook(n.kernel.maps, false), Hop(e.egressNext, false), e.egressPort, |EgressPrograms(e)| + more)
         == Trace(EgressPrograms(e), Passed)
  {
    n.IfaceFacts(e, n.kernel.maps);
    hide Network.Valid;
    ExitWalk(n, e, false, e.egressPort, more);
  }

  /** A port's egress tail is the index of its netdev. */
  lemma TailToNetdev(n: Network, p: Port, e: ExtIface)
    requires n.Valid() && p in n.ports && p.peer == ToIface(e)
    ensures e in n.ifaces && e.xdp == p.parent.xdp && e.peer == p && p.linked
    ensures p.Tail() == HopTo(e.index, e.ifindex) && p.ForwardId() == p.id
    ensures 0 < p.Tail().next < PORT_SHIFT
    ensures e.xdp ==> e.index == e.egressNext
    ensures !e.xdp ==> p.Tail() == Hop(e.ifindex, true)
    ensures e.HasPeerProgram() ==> p.id == e.peer.id
  {
    n.PeerFacts(p);
    n.PortFacts(p, n.kernel.maps);
    NetdevIndex(n, e);
  }

  /** From a port to its XDP netdev: p's egress cubes, then the same chain as at the TC
      hook, then a redirect to the netdev. */
  lemma PortToXdpNetdev(n: Network, p: Port, e: ExtIface, more: nat)
    requires n.Valid() && p in n.ports && p.peer == ToIface(e) && e.xdp
    ensures Sent(n.kernel.maps, true, p.Slot(), |Live(p.Eg())| + (|EgressPrograms(e)| + more))
         == Trace(Live(p.Eg()) + EgressPrograms(e), Redirected(e.ifindex))
  {
    hide Network.Valid, Walk, Sent;
    TailToNetdev(n, p, e);
    EgressWalk(n, p, |EgressPrograms(e)| + more);
    ExitWalk(n, e, true, p.id, more);
  }

  lemma NetdevIndex(n: Network, e: ExtIface)
    requires n.Valid() && e in n.ifaces
    ensures e.index == (if e.xdp then e.egressNext else PASS) && 0 < e.index <= PASS
    ensures 0 < e.ifindex < PASS
  {
    n.IfaceFacts(e, n.kernel.maps);
    ExitEntry(n, e);
    if e.HasPeerProgram() {
      n.PeerFacts(e.peer);
      n.PortFacts(e.peer, n.kernel.maps);
      assert e.peer.parent.egressIndex < MAX_NODES;
    }
  }

  /** From a port to its TC netdev: p's egress cubes and a redirect; the netdev's own
      chain then runs at its TC egress hook. */
  lemma PortToTcNetdev(n: Network, p: Port, e: ExtIface, more: nat)
    requires n.Valid() && p in n.ports && p.peer == ToIface(e) && !e.xdp
    ensures Sent(n.kernel.maps, false, p.Slot(), |Live(p.Eg())| + more) == Trace(Live(p.Eg()), Redirected(e.ifindex))
  {
    TailToNetdev(n, p, e);
    hide Network.Valid;
    EgressWalk(n, p, more);
    assert Live(p.Eg()) + [] == Live(p.Eg());
  }

  /** The netdev's ingress list, followed by whatever its tail leads to. */
  lemma IngressListWalk(n: Network, e: ExtIface, rest: nat)
    requires n.Valid() && e in n.ifaces
    ensures var ws := Hook(n.kernel.maps, e.xdp);
            Walk(ws, Hop(e.ingressNext, false), e.ingressPort, |Live(e.In())| + rest)
              == Then(Live(e.In()), Walk(ws, e.IngressTail(), e.ingressPort, rest))
  {
    n.IfaceFacts(e, n.kernel.maps);
    n.KernelFacts();
    hide Network.Valid, Network.ParentsLoaded;
    ListedIsInjective(e.cubes, INGRESS, n.kernel, e.xdp);
    WalkUp(Hook(n.kernel.maps, e.xdp), e.In(), e.IngressTail(), e.ingressPort, rest);
  }

  /** What a netdev stores for its peer. */
  lemma IngressTailFacts(n: Network, e: ExtIface)
    requires n.Valid() && e in n.ifaces && e.peer != null
    ensures e.peer in n.ports && e.peer.linked && e.peer.parent.xdp == e.xdp && e.ingressPort == e.peer.id
    ensures e.IngressTail() == Hop(e.peer.portIndex, false)
  {
    n.IfaceFacts(e, n.kernel.maps);
    n.PeerFacts(e.peer);
    n.PortFacts(e.peer, n.kernel.maps);
  }

  /** Into a netdev: its ingress cubes 0..N-1, then the peer's ingress cubes N-1..0 and
      cube, or the network stack. */
  lemma NetdevIngress(n: Network, e: ExtIface, more: nat)
    requires n.Valid() && e in n.ifaces
    ensures var rest := if e.peer == null then more else |Live(e.peer.In())| + 1 + more;
            Walk(Hook(n.kernel.maps, e.xdp), Hop(e.ingressNext, false), e.ingressPort, |Live(e.In())| + rest)
              == if e.peer == null then Trace(Live(e.In()), Passed)
                 else Trace(Live(e.In()) + (Reverse(Live(e.peer.In())) + [e.peer.parent.ingressIndex]),
                            Delivered(e.peer.parent.id, e.peer.id))
  {
    hide Network.Valid, Walk, Hook;
    if e.peer == null {
      IngressListWalk(n, e, more);
      StackWalk(n, e, more);
      assert Live(e.In()) + [] == Live(e.In());
    } else {
      IngressListWalk(n, e, |Live(e.peer.In())| + 1 + more);
      IngressTailFacts(n, e);
      EntryWalk(n, e.peer, e.peer.id, more);
    }
  }

  /** Without a peer the tail of the ingress list is the stack. */
  lemma StackWalk(n: Network, e: ExtIface, more: nat)
    requires n.Valid() && e in n.ifaces && e.peer == null
    ensures Walk(Hook(n.kernel.maps, e.xdp), e.IngressTail(), e.ingressPort, more) == Trace([], Passed)
  {
    n.IfaceFacts(e, n.kernel.maps);
  }
}
