/** All ports, netdevs and transparent cubes of one daemon, and the operations that
    connect and disconnect peers and attach and detach cubes.  Whatever the run of
    operations, every chain stays linked. */
module Topology {
  import opened ServiceChain
  import opened TransparentCubes
  import opened Peers
  import opened AttachOrder

  /** What an operation works on: objects, programs, table slots, and the cubes whose
      TC copy it may leave stale. */
  datatype Touched = Touched(
    ports: set<Port>,
    ifaces: set<ExtIface>,
    ghost keys: set<nat>,
    ghost slots: set<(nat, nat)>,
    ghost lost: seq<TransparentCube>)
  {
    /** The peer of a touched object is touched. */
    ghost predicate Closed()
      reads ports, ifaces
    {
      && (forall p :: p in ports && p.peer.ToPort? ==> p.peer.port in ports)
      && (forall p :: p in ports && p.peer.ToIface? ==> p.peer.iface in ifaces)
      && (forall e :: e in ifaces && e.peer != null ==> e.peer in ports)
    }

    /** Peers point at each other and belong to one hook. */
    ghost predicate Paired()
      reads ports, ifaces
    {
      && Closed()
      && (forall p :: p in ports && p.peer.ToPort? ==>
            p.peer.port != p && p.peer.port.peer == ToPort(p) && p.peer.port.parent.xdp == p.parent.xdp)
      && (forall p :: p in ports && p.peer.ToIface? ==> p.peer.iface.peer == p && p.peer.iface.xdp == p.parent.xdp)
      && (forall e :: e in ifaces && e.peer != null ==> e.peer.peer == ToIface(e))
    }
  }

  class Network {
    const kernel: Kernel
    ghost var parents: set<Cube>
    ghost var ports: set<Port>
    ghost var ifaces: set<ExtIface>

    constructor ()
      ensures Valid() && fresh(kernel) && parents == {} && ports == {} && ifaces == {} && kernel.cubes == {}
    {
      kernel := new Kernel();
      parents, ports, ifaces := {}, {}, {};
    }

    /** Forwarding cubes are loaded and share no program index with anything; no program
        has index 0. */
    ghost predicate ParentsLoaded(m: Maps)
      reads this, kernel`cubes
    {
      && 0 !in m.tc && 0 !in m.xdp
      && (forall c :: c in parents ==>
          c.kernel == kernel && c.Loaded(m) && c.ingressIndex < MAX_NODES && c.egressIndex < MAX_NODES)
      && (forall c, d :: c in parents && d in parents && c != d ==> c.id != d.id && c.Keys() !! d.Keys())
      && (forall c, t :: c in parents && t in kernel.cubes ==> c.Keys() !! t.Keys())
    }

    /** Every transparent cube is attached at most once. */
    ghost predicate Lists()
      reads this, ports`cubes, ifaces`cubes, kernel`cubes
    {
      && (forall p {:trigger p.Sane()} :: p in ports ==> p.parent in parents && p.parent.kernel == kernel && p.Sane())
      && (forall e {:trigger e.Sane()} :: e in ifaces ==> e.kernel == kernel && e.Sane())
      && (forall p, q {:trigger p.Slot(), q.Slot()} :: p in ports && q in ports && p != q ==> p.Slot() != q.Slot())
      && (forall p, q {:trigger Disjoint(p.cubes, q.cubes)} :: p in ports && q in ports && p != q ==>
          Disjoint(p.cubes, q.cubes))
      && (forall e, f {:trigger Disjoint(e.cubes, f.cubes)} :: e in ifaces && f in ifaces && e != f ==>
          Disjoint(e.cubes, f.cubes))
      && (forall p, e {:trigger Disjoint(p.cubes, e.cubes)} :: p in ports && e in ifaces ==> Disjoint(p.cubes, e.cubes))
    }

    /** Connections are symmetric and between peers of one hook. */
    ghost predicate Links()
      reads this, ports`peer, ifaces`peer
    {
      && (forall p :: p in ports && p.peer.ToPort? ==>
            p.peer.port in ports && p.peer.port != p && p.peer.port.peer == ToPort(p) &&
              p.peer.port.parent.xdp == p.parent.xdp)
      && (forall p :: p in ports && p.peer.ToIface? ==>
            p.peer.iface in ifaces && p.peer.iface.peer == p && p.peer.iface.xdp == p.parent.xdp)
      && (forall e :: e in ifaces && e.peer != null ==> e.peer in ports && e.peer.peer == ToIface(e))
    }

    ghost function Peers(): set<object>
      reads this, ports, ifaces
    {
      (set p, o | p in ports && o in p.PeerObject() :: o) + (set e | e in ifaces && e.peer != null :: e.peer as object)
    }

    ghost predicate Settled(m: Maps)
      reads this, ports, ifaces, Peers(), kernel`current
    {
      && (forall p {:trigger PortSettled(p, m)} :: p in ports ==> PortSettled(p, m))
      && (forall e {:trigger IfaceSettled(e, m, kernel)} :: e in ifaces ==> IfaceSettled(e, m, kernel))
    }

    ghost predicate Valid()
      reads this, kernel, kernel.cubes, ports, ifaces, Peers()
    {
      kernel.Valid() && ParentsLoaded(kernel.maps) && Lists() && Links() && Settled(kernel.maps)
    }

    lemma ParentsFrame(m: Maps, m': Maps, keys: set<nat>, slots: set<(nat, nat)>)
      requires ParentsLoaded(m) && Within(m, m', keys, keys, slots)
      requires 0 !in keys && forall c :: c in parents ==> c.Keys() !! keys
      ensures ParentsLoaded(m')
    {
      assert SameAt(m.tc, m'.tc, 0) && SameAt(m.xdp, m'.xdp, 0);
      forall c | c in parents ensures c.Loaded(m') {
        c.StillLoaded(m, m', keys, slots);
      }
    }

    /** The programs of a list belong to no forwarding cube. */
    lemma ParentsApart(cubes: seq<TransparentCube>, xdp: bool, m: Maps)
      requires ParentsLoaded(m) && Listed(cubes, kernel, xdp)
      ensures forall c :: c in parents ==> c.Keys() !! Keys(cubes)
    {
    }

    /** All objects but the touched ones agree with the maps. */
    ghost predicate SettledExcept(touched: set<Port>, touchedIfaces: set<ExtIface>, m: Maps)
      reads this, ports, ifaces, Peers(), kernel`current
    {
      && (forall p {:trigger PortSettled(p, m)} :: p in ports && p !in touched ==> PortSettled(p, m))
      && (forall e {:trigger IfaceSettled(e, m, kernel)} :: e in ifaces && e !in touchedIfaces ==>
          IfaceSettled(e, m, kernel))
    }

    /** An operation that modified only the touched objects left the others as settled
        as they were. */
    twostate lemma Kept(t: Touched, new m: Maps)
      requires old(Links())
      requires old(Settled(m))
      requires old(t.Closed())
      requires ports == old(ports) && ifaces == old(ifaces) && kernel.cubes == old(kernel.cubes)
      requires forall r :: r in ports && r !in t.ports ==> unchanged(r)
      requires forall e :: e in ifaces && e !in t.ifaces ==> unchanged(e)
      requires forall e :: e in ifaces && e !in t.ifaces && e.xdp && old(AllCurrent(e.cubes, kernel)) ==>
                 AllCurrent(e.cubes, kernel)
      ensures SettledExcept(t.ports, t.ifaces, m)
    {
      forall r | r in ports && r !in t.ports ensures PortSettled(r, m) {
        assert old(PortSettled(r, m));
        assert r.Tail() == old(r.Tail());
      }
      forall e | e in ifaces && e !in t.ifaces ensures IfaceSettled(e, m, kernel) {
        assert old(IfaceSettled(e, m, kernel));
        assert e.IngressTail() == old(e.IngressTail());
      }
    }

    /** Untouched objects stay settled whatever happens to other programs and slots. */
    lemma OthersSettled(touched: set<Port>, touchedIfaces: set<ExtIface>, m: Maps, m': Maps, keys: set<nat>,
                        slots: set<(nat, nat)>)
      requires SettledExcept(touched, touchedIfaces, m) && Within(m, m', keys, keys, slots)
      requires forall r :: r in ports && r !in touched ==> Keys(r.cubes) !! keys && r.Slot() !in slots
      requires forall e :: e in ifaces && e !in touchedIfaces ==> Keys(e.cubes) !! keys
      requires forall e :: e in ifaces && e !in touchedIfaces && e.peer != null ==> e.peer.Slot() !in slots
      ensures SettledExcept(touched, touchedIfaces, m')
    {
      forall r | r in ports && r !in touched ensures PortSettled(r, m') {
        PortFrame(r, m, m', keys, slots);
      }
      forall e | e in ifaces && e !in touchedIfaces ensures IfaceSettled(e, m', kernel) {
        IfaceFrame(e, m, m', keys, slots, kernel);
      }
    }

    /** No other object uses what an operation on t may touch. */
    ghost predicate Isolated(t: Touched)
      reads this, ports`cubes, ifaces`cubes, ifaces`peer
    {
      && 0 !in t.keys
      && (forall r :: r in ports && r !in t.ports ==> Keys(r.cubes) !! t.keys && r.Slot() !in t.slots)
      && (forall e :: e in ifaces && e !in t.ifaces ==> Keys(e.cubes) !! t.keys)
      && (forall e :: e in ifaces && e !in t.ifaces && e.peer != null ==> e.peer.Slot() !in t.slots)
      && (forall c :: c in parents ==> c.Keys() !! t.keys)
      && (forall e, i :: e in ifaces && e !in t.ifaces && 0 <= i < |e.cubes| ==> e.cubes[i] !in t.lost)
    }

    /** A list attached nowhere else is isolated. */
    lemma ListIsolated(t: Touched, cubes: seq<TransparentCube>, xdp: bool, m: Maps)
      requires kernel.Valid() && Lists() && ParentsLoaded(m) && Listed(cubes, kernel, xdp)
      requires forall r :: r in ports && r !in t.ports ==> Disjoint(r.cubes, cubes)
      requires forall e :: e in ifaces && e !in t.ifaces ==> Disjoint(e.cubes, cubes)
      ensures Isolated(t.(keys := Keys(cubes), slots := {}, lost := cubes))
    {
      assert forall r :: r in ports ==> r.Sane();
      assert forall e :: e in ifaces ==> e.Sane();
      forall r | r in ports && r !in t.ports ensures Keys(r.cubes) !! Keys(cubes) {
        ListKeysApart(r.cubes, cubes, kernel, r.parent.xdp, xdp);
      }
      forall e | e in ifaces && e !in t.ifaces ensures Keys(e.cubes) !! Keys(cubes) {
        ListKeysApart(e.cubes, cubes, kernel, e.xdp, xdp);
      }
      ParentsApart(cubes, xdp, m);
    }

    /** What Lists and Settled say of one port. */
    lemma PortFacts(p: Port, m: Maps)
      requires ParentsLoaded(m) && Lists() && Settled(m) && p in ports
      ensures p.parent in parents && p.parent.kernel == kernel && p.Sane() && PortSettled(p, m)
      ensures 0 < p.parent.ingressIndex < MAX_NODES
    {
    }

    lemma IfaceFacts(e: ExtIface, m: Maps)
      requires Lists() && Settled(m) && e in ifaces
      ensures e.kernel == kernel && e.Sane() && IfaceSettled(e, m, kernel)
    {
    }

    lemma PortIsolated(t: Touched, p: Port, m: Maps)
      requires kernel.Valid() && Lists() && Links() && ParentsLoaded(m)
      requires p in t.ports && t.ports <= ports && t.ifaces <= ifaces && t.Closed()
      ensures Isolated(t.(keys := Keys(p.cubes), slots := {p.Slot()}, lost := p.cubes))
    {
      assert p.Sane();
      forall r | r in ports && r !in t.ports ensures Disjoint(r.cubes, p.cubes) && r.Slot() != p.Slot() {
      }
      forall e | e in ifaces && e !in t.ifaces ensures Disjoint(e.cubes, p.cubes) {
        assert Disjoint(p.cubes, e.cubes);
      }
      forall e | e in ifaces && e !in t.ifaces && e.peer != null ensures e.peer.Slot() != p.Slot() {
        assert e.peer in ports && e.peer !in t.ports;
      }
      ListIsolated(t, p.cubes, p.parent.xdp, m);
    }

    lemma IfaceIsolated(t: Touched, e: ExtIface, m: Maps)
      requires kernel.Valid() && Lists() && Links() && ParentsLoaded(m)
      requires e in t.ifaces && t.ports <= ports && t.ifaces <= ifaces && t.Closed()
      ensures Isolated(t.(keys := Keys(e.cubes), slots := {}, lost := e.cubes))
    {
      assert e.Sane();
      forall r | r in ports && r !in t.ports ensures Disjoint(r.cubes, e.cubes) {
      }
      forall f | f in ifaces && f !in t.ifaces ensures Disjoint(f.cubes, e.cubes) {
      }
      ListIsolated(t, e.cubes, e.xdp, m);
    }

    lemma BothIsolated(t: Touched, u: Touched)
      requires t.ports == u.ports && t.ifaces == u.ifaces && Isolated(t) && Isolated(u)
      ensures Isolated(t.(keys := t.keys + u.keys, slots := t.slots + u.slots, lost := t.lost + u.lost))
    {
    }

    twostate lemma LinksKept(t: Touched)
      requires old(Links()) && old(t.Closed()) && t.Paired()
      requires t.ports <= ports && t.ifaces <= ifaces
      requires ports == old(ports) && ifaces == old(ifaces)
      requires forall r :: r in ports && r !in t.ports ==> unchanged(r)
      requires forall e :: e in ifaces && e !in t.ifaces ==> unchanged(e)
      ensures Links()
    {
    }

    twostate lemma ListsKept()
      requires old(Valid())
      requires ports == old(ports) && ifaces == old(ifaces) && parents == old(parents) &&
               kernel.cubes == old(kernel.cubes)
      requires forall r :: r in ports ==> r.cubes == old(r.cubes)
      requires forall e :: e in ifaces ==> e.cubes == old(e.cubes)
      ensures Lists()
    {
      forall r | r in ports ensures r.parent in parents && r.parent.kernel == kernel && r.Sane() {
        assert old(r.Sane());
      }
      forall e | e in ifaces ensures e.kernel == kernel && e.Sane() { assert old(e.Sane()); }
    }

    /** An operation that settles what it touches and keeps the lists apart keeps every
        invariant. */
    twostate lemma Commit(t: Touched)
      requires old(Valid())
      requires old(t.Closed())
      requires old(Isolated(t))
      requires t.ports <= ports && t.ifaces <= ifaces && t.Paired()
      requires ports == old(ports) && ifaces == old(ifaces) && parents == old(parents) &&
               kernel.cubes == old(kernel.cubes)
      requires forall r :: r in ports && r !in t.ports ==> unchanged(r)
      requires forall e :: e in ifaces && e !in t.ifaces ==> unchanged(e)
      requires forall c :: c in old(kernel.current) && c !in t.lost ==> c in kernel.current
      requires kernel.Valid() && Within(old(kernel.maps), kernel.maps, t.keys, t.keys, t.slots)
      requires forall p :: p in t.ports ==> PortSettled(p, kernel.maps)
      requires forall e :: e in t.ifaces ==> IfaceSettled(e, kernel.maps, kernel)
      requires Lists()
      ensures Valid()
    {
      LinksKept(t);
      Kept(t, old(kernel.maps));
      OthersSettled(t.ports, t.ifaces, old(kernel.maps), kernel.maps, t.keys, t.slots);
      ParentsFrame(old(kernel.maps), kernel.maps, t.keys, t.slots);
    }

    // ------------------------------------------------------- connections

    lemma PeerFacts(p: Port)
      requires Valid() && p in ports
      ensures p.peer.ToPort? ==> p.peer.port in ports && p.peer.port != p && p.peer.port.peer == ToPort(p)
      ensures p.peer.ToPort? ==> p.peer.port.parent.xdp == p.parent.xdp
      ensures p.peer.ToIface? ==> p.peer.iface in ifaces && p.peer.iface.peer == p && p.peer.iface.xdp == p.parent.xdp
    {
    }

    lemma BeforeTwoPorts(p: Port, q: Port) returns (t: Touched)
      requires Valid() && p in ports && q in ports && p != q && p.parent.xdp == q.parent.xdp
      requires (p.peer == NoPeer && q.peer == NoPeer) || (p.peer == ToPort(q) && q.peer == ToPort(p))
      ensures t == Touched({p, q}, {}, Keys(p.cubes) + Keys(q.cubes), {p.Slot(), q.Slot()}, p.cubes + q.cubes)
      ensures kernel.Valid() && Connectable(p, q, kernel)
      ensures PortSettled(p, kernel.maps) && PortSettled(q, kernel.maps)
      ensures t.Closed() && Isolated(t)
    {
      t := Touched({p, q}, {}, Keys(p.cubes) + Keys(q.cubes), {p.Slot(), q.Slot()}, p.cubes + q.cubes);
      PortIsolated(t, p, kernel.maps);
      PortIsolated(t, q, kernel.maps);
      BothIsolated(t.(keys := Keys(p.cubes), slots := {p.Slot()}, lost := p.cubes),
                   t.(keys := Keys(q.cubes), slots := {q.Slot()}, lost := q.cubes));
      PortFacts(p, kernel.maps);
      PortFacts(q, kernel.maps);
      assert Disjoint(p.cubes, q.cubes);
    }

    lemma BeforePortAndIface(p: Port, e: ExtIface) returns (t: Touched)
      requires Valid() && p in ports && e in ifaces && p.parent.xdp == e.xdp
      requires (p.peer == NoPeer && e.peer == null) || (p.peer == ToIface(e) && e.peer == p)
      ensures t == Touched({p}, {e}, Keys(p.cubes) + Keys(e.cubes), {p.Slot()}, p.cubes + e.cubes)
      ensures kernel.Valid() && p.parent.kernel == kernel && 0 < p.parent.ingressIndex < MAX_NODES && p.Sane()
      ensures e.kernel == kernel && e.Sane() && Disjoint(p.cubes, e.cubes) && (!e.xdp ==> e.index == PASS)
      ensures PortSettled(p, kernel.maps) && IfaceSettled(e, kernel.maps, kernel)
      ensures t.Closed() && Isolated(t)
    {
      t := Touched({p}, {e}, Keys(p.cubes) + Keys(e.cubes), {p.Slot()}, p.cubes + e.cubes);
      PortIsolated(t, p, kernel.maps);
      IfaceIsolated(t, e, kernel.maps);
      BothIsolated(t.(keys := Keys(p.cubes), slots := {p.Slot()}, lost := p.cubes),
        t.(keys := Keys(e.cubes), slots := {}, lost := e.cubes));
      assert t.slots == {p.Slot()} + {};
      PortFacts(p, kernel.maps);
      IfaceFacts(e, kernel.maps);
      assert Disjoint(p.cubes, e.cubes);
    }

    static lemma PortsPaired(t: Touched, p: Port, q: Port)
      requires p != q && p.parent.xdp == q.parent.xdp && t.ports == {p, q} && t.ifaces == {}
      requires (p.peer == NoPeer && q.peer == NoPeer) || (p.peer == ToPort(q) && q.peer == ToPort(p))
      ensures t.Paired()
    {
    }

    static lemma IfacePaired(t: Touched, p: Port, e: ExtIface)
      requires p.parent.xdp == e.xdp && t.ports == {p} && t.ifaces == {e}
      requires (p.peer == NoPeer && e.peer == null) || (p.peer == ToIface(e) && e.peer == p)
      ensures t.Paired()
    {
    }

    /** Connects two unconnected ports of one hook. */
    method Connect(p: Port, q: Port)
      requires Valid() && p in ports && q in ports && p != q && p.parent.xdp == q.parent.xdp
      requires p.peer == NoPeer && q.peer == NoPeer
      modifies p`peer, p`portIndex, p`linked, q`peer, q`portIndex, q`linked, kernel`maps, kernel`current,
        kernel.cubes`next
      ensures p.peer == ToPort(q) && q.peer == ToPort(p)
      ensures Valid()
    {
      hide *;
      ghost var t := BeforeTwoPorts(p, q);
      ConnectPorts(p, q, kernel);
      ListsKept();
      PortsPaired(t, p, q);
      Commit(t);
    }

    /** Connects an unconnected port to an unconnected netdev of the same hook. */
    method ConnectNetdev(p: Port, e: ExtIface)
      requires Valid() && p in ports && e in ifaces && p.parent.xdp == e.xdp && e.ScanSafe()
      requires p.peer == NoPeer && e.peer == null
      modifies p`peer, p`portIndex, p`linked, e, kernel`maps, kernel`current, kernel.cubes`next
      ensures p.peer == ToIface(e) && e.peer == p && e.cubes == old(e.cubes)
      ensures Valid()
    {
      hide *;
      ghost var t := BeforePortAndIface(p, e);
      ConnectIface(p, e, kernel);
      ListsKept();
      IfacePaired(t, p, e);
      Commit(t);
    }

    method Disconnect(p: Port, q: Port)
      requires Valid() && p in ports && p.peer == ToPort(q)
      modifies p`peer, p`portIndex, p`linked, q`peer, q`portIndex, q`linked, kernel`maps, kernel`current,
        kernel.cubes`next
      ensures p.peer == NoPeer && q.peer == NoPeer
      ensures Valid()
    {
      hide *;
      PeerFacts(p);
      ghost var t := BeforeTwoPorts(p, q);
      UnconnectPorts(p, q, kernel);
      ListsKept();
      PortsPaired(t, p, q);
      Commit(t);
    }

    method DisconnectNetdev(p: Port, e: ExtIface)
      requires Valid() && p in ports && p.peer == ToIface(e)
      modifies p`peer, p`portIndex, p`linked, e, kernel`maps, kernel`current, kernel.cubes`next
      ensures p.peer == NoPeer && e.peer == null && e.cubes == old(e.cubes)
      ensures Valid()
    {
      hide *;
      PeerFacts(p);
      ghost var t := BeforePortAndIface(p, e);
      UnconnectIface(p, e, kernel);
      ListsKept();
      IfacePaired(t, p, e);
      Commit(t);
    }

    // ---------------------------------------------------- lists of cubes

    /** Replacing one list by cubes that are attached nowhere else keeps lists apart. */
    twostate lemma PortListReplaced(p: Port)
      requires old(Valid()) && p in ports && Listed(p.cubes, kernel, p.parent.xdp)
      requires ports == old(ports) && ifaces == old(ifaces) && parents == old(parents) &&
               kernel.cubes == old(kernel.cubes)
      requires forall r :: r in ports && r != p ==> r.cubes == old(r.cubes) && Disjoint(r.cubes, p.cubes)
      requires forall e :: e in ifaces ==> e.cubes == old(e.cubes) && Disjoint(e.cubes, p.cubes)
      ensures Lists()
    {
      hide Kernel.Valid, Network.ParentsLoaded, Network.Links, Network.Settled;
      forall r | r in ports ensures r.parent in parents && r.parent.kernel == kernel && r.Sane() {
        assert old(r.Sane());
      }
      forall e | e in ifaces ensures e.kernel == kernel && e.Sane() { assert old(e.Sane()); }
      forall r, q | r in ports && q in ports && r != q ensures Disjoint(r.cubes, q.cubes) {
        assert old(Disjoint(r.cubes, q.cubes)) && (r == p ==> Disjoint(q.cubes, p.cubes));
      }
      forall e, f | e in ifaces && f in ifaces && e != f ensures Disjoint(e.cubes, f.cubes) {
        assert old(Disjoint(e.cubes, f.cubes));
      }
      forall r, e | r in ports && e in ifaces ensures Disjoint(r.cubes, e.cubes) {
        assert old(Disjoint(r.cubes, e.cubes)) && (r == p ==> Disjoint(e.cubes, p.cubes));
      }
    }

    twostate lemma IfaceListReplaced(e: ExtIface)
      requires old(Valid()) && e in ifaces && Listed(e.cubes, kernel, e.xdp)
      requires ports == old(ports) && ifaces == old(ifaces) && parents == old(parents) &&
               kernel.cubes == old(kernel.cubes)
      requires forall r :: r in ports ==> r.cubes == old(r.cubes) && Disjoint(r.cubes, e.cubes)
      requires forall f :: f in ifaces && f != e ==> f.cubes == old(f.cubes) && Disjoint(f.cubes, e.cubes)
      ensures Lists()
    {
      hide Kernel.Valid, Network.ParentsLoaded, Network.Links, Network.Settled;
      forall r | r in ports ensures r.parent in parents && r.parent.kernel == kernel && r.Sane() {
        assert old(r.Sane());
      }
      forall f | f in ifaces ensures f.kernel == kernel && f.Sane() { assert old(f.Sane()); }
      forall r, q | r in ports && q in ports && r != q ensures Disjoint(r.cubes, q.cubes) {
        assert old(Disjoint(r.cubes, q.cubes));
      }
      forall f, g | f in ifaces && g in ifaces && f != g ensures Disjoint(f.cubes, g.cubes) {
        assert old(Disjoint(f.cubes, g.cubes)) && (f == e ==> Disjoint(g.cubes, e.cubes));
      }
      forall r, f | r in ports && f in ifaces ensures Disjoint(r.cubes, f.cubes) {
        assert old(Disjoint(r.cubes, f.cubes));
      }
    }

    lemma AroundPort(p: Port, cubes: seq<TransparentCube>) returns (t: Touched)
      requires Valid() && p in ports && Listed(cubes, kernel, p.parent.xdp)
      requires forall r :: r in ports && r != p ==> Disjoint(r.cubes, cubes)
      requires forall e :: e in ifaces ==> Disjoint(e.cubes, cubes)
      ensures t.ports == {p} + if p.peer.ToPort? then {p.peer.port} else {}
      ensures t.ifaces == if p.peer.ToIface? then {p.peer.iface} else {}
      ensures t.keys == Keys(cubes) + Keys(p.PeerCubes()) && t.slots == p.BothSlots()
      ensures t.lost == cubes + if p.peer.ToPort? then p.PeerCubes() else []
      ensures t.ports <= ports && t.ifaces <= ifaces && t.Paired() && t.Closed() && Isolated(t)
    {
      PeerFacts(p);
      t := Touched({p} + if p.peer.ToPort? then {p.peer.port} else {}, if p.peer.ToIface? then {p.peer.iface} else {},
                   Keys(cubes) + Keys(p.PeerCubes()), p.BothSlots(),
                     cubes + if p.peer.ToPort? then p.PeerCubes() else []);
      ListIsolated(t, cubes, p.parent.xdp, kernel.maps);
      PortIsolated(t, p, kernel.maps);
      if p.peer.ToPort? {
        PortIsolated(t, p.peer.port, kernel.maps);
      } else if p.peer.ToIface? {
        IfaceIsolated(t, p.peer.iface, kernel.maps);
      }
    }

    lemma BeforePortCubes(p: Port, cubes: seq<TransparentCube>)
      requires Valid() && p in ports
      requires forall r :: r in ports && r != p ==> Disjoint(r.cubes, cubes)
      requires forall e :: e in ifaces ==> Disjoint(e.cubes, cubes)
      ensures kernel.Valid() && p.parent.kernel == kernel && 0 < p.parent.ingressIndex < MAX_NODES && p.PeerKind()
      ensures PortSettled(p, kernel.maps)
      ensures p.peer.ToPort? ==> p.peer.port.Sane() && Disjoint(cubes, p.peer.port.cubes)
      ensures p.peer.ToPort? ==> p.peer.port.peer == ToPort(p) && PortSettled(p.peer.port, kernel.maps)
      ensures p.peer.ToIface? ==> p.peer.iface.Sane() && Disjoint(cubes, p.peer.iface.cubes)
      ensures p.peer.ToIface? ==> p.peer.iface.peer == p && IfaceSettled(p.peer.iface, kernel.maps, kernel)
    {
      PeerFacts(p);
      PortFacts(p, kernel.maps);
      if p.peer.ToPort? {
        PortFacts(p.peer.port, kernel.maps);
      } else if p.peer.ToIface? {
        IfaceFacts(p.peer.iface, kernel.maps);
      }
    }

    /** Replaces the list of port p by one of cubes attached nowhere else. */
    method SetPortCubes(p: Port, cubes: seq<TransparentCube>)
      requires Valid() && p in ports && Listed(cubes, kernel, p.parent.xdp)
      requires forall r :: r in ports && r != p ==> Disjoint(r.cubes, cubes)
      requires forall e :: e in ifaces ==> Disjoint(e.cubes, cubes)
      requires p.peer.ToIface? ==> p.peer.iface.ScanSafe()
      modifies p`cubes, p`portIndex, p`linked, kernel`maps, kernel`current, kernel.cubes`next
      modifies if p.peer.ToIface? then {p.peer.iface} else {}
      ensures p.cubes == cubes && Valid()
      ensures p.peer == old(p.peer) && (p.peer.ToIface? ==> p.peer.iface.cubes == old(p.peer.iface.cubes))
    {
      hide *;
      BeforePortCubes(p, cubes);
      ghost var t := AroundPort(p, cubes);
      p.ReplaceCubes(cubes);
      PortListReplaced(p);
      Commit(t);
    }

    lemma AroundIface(e: ExtIface, cubes: seq<TransparentCube>) returns (t: Touched)
      requires Valid() && e in ifaces && Listed(cubes, kernel, e.xdp)
      requires forall r :: r in ports ==> Disjoint(r.cubes, cubes)
      requires forall f :: f in ifaces && f != e ==> Disjoint(f.cubes, cubes)
      ensures t.ports == (if e.peer != null then {e.peer} else {}) && t.ifaces == {e}
      ensures t.keys == Keys(cubes) + Keys(e.PeerCubes()) && t.slots == e.PeerSlots() && t.lost == cubes + e.PeerCubes()
      ensures t.ports <= ports && t.ifaces <= ifaces && t.Paired() && t.Closed() && Isolated(t)
    {
      if e.peer != null { PeerFacts(e.peer); }
      t := Touched(if e.peer != null then {e.peer} else {}, {e},
                   Keys(cubes) + Keys(e.PeerCubes()), e.PeerSlots(), cubes + e.PeerCubes());
      ListIsolated(t, cubes, e.xdp, kernel.maps);
      if e.peer != null { PortIsolated(t, e.peer, kernel.maps); }
    }

    lemma BeforeIfaceCubes(e: ExtIface, cubes: seq<TransparentCube>)
      requires Valid() && e in ifaces
      requires forall r :: r in ports ==> Disjoint(r.cubes, cubes)
      ensures kernel.Valid() && e.kernel == kernel && 0 < e.ifindex < PASS && (!e.xdp ==> e.index == PASS)
      ensures e.peer != null ==>
                e.peer.peer == ToIface(e) && e.peer.parent.kernel == kernel && e.peer.parent.xdp == e.xdp
      ensures e.peer != null ==> e.peer.Sane() && Disjoint(cubes, e.peer.cubes) && PortSettled(e.peer, kernel.maps)
    {
      IfaceFacts(e, kernel.maps);
      if e.peer != null {
        PeerFacts(e.peer);
        PortFacts(e.peer, kernel.maps);
      }
    }

    /** Replaces the list of netdev e by one of cubes attached nowhere else. */
    method SetIfaceCubes(e: ExtIface, cubes: seq<TransparentCube>)
      requires Valid() && e in ifaces && Listed(cubes, kernel, e.xdp)
      requires forall r :: r in ports ==> Disjoint(r.cubes, cubes)
      requires forall f :: f in ifaces && f != e ==> Disjoint(f.cubes, cubes)
      modifies e, kernel`maps, kernel`current, kernel.cubes`next
      ensures e.cubes == cubes && e.peer == old(e.peer) && Valid()
    {
      hide *;
      BeforeIfaceCubes(e, cubes);
      ghost var t := AroundIface(e, cubes);
      e.ReplaceCubes(cubes);
      IfaceListReplaced(e);
      Commit(t);
    }

    // ------------------------------------------------------- new objects

    /** Indexes that no program has. */
    ghost predicate Unused(index: nat)
      reads this`parents, kernel`cubes
    {
      && index < MAX_NODES
      && (forall c :: c in parents && index != 0 ==> index !in c.Keys())
      && (forall t :: t in kernel.cubes && index != 0 ==> index !in t.Keys())
    }

    /** Loading programs under unused indexes disturbs no link. */
    twostate lemma StillSettled(new keys: set<nat>)
      requires old(Valid())
      requires forall r :: r in old(ports) ==> unchanged(r) && Keys(r.cubes) !! keys
      requires forall e :: e in old(ifaces) ==> unchanged(e) && Keys(e.cubes) !! keys
      requires kernel.current == old(kernel.current) && Within(old(kernel.maps), kernel.maps, keys, keys, {})
      ensures forall r :: r in old(ports) ==> PortSettled(r, kernel.maps)
      ensures forall e :: e in old(ifaces) ==> IfaceSettled(e, kernel.maps, kernel)
    {
      forall r | r in old(ports) ensures PortSettled(r, kernel.maps) {
        assert old(PortSettled(r, kernel.maps)) && r.Tail() == old(r.Tail());
        PortFrame(r, old(kernel.maps), kernel.maps, keys, {});
      }
      forall e | e in old(ifaces) ensures IfaceSettled(e, kernel.maps, kernel) {
        assert old(IfaceSettled(e, kernel.maps, kernel)) && e.IngressTail() == old(e.IngressTail());
        IfaceFrame(e, old(kernel.maps), kernel.maps, keys, {}, kernel);
      }
    }

    lemma UnusedApart(keys: set<nat>)
      requires Valid() && forall k :: k in keys ==> k != 0 && Unused(k)
      ensures forall r :: r in ports ==> Keys(r.cubes) !! keys
      ensures forall e :: e in ifaces ==> Keys(e.cubes) !! keys
    {
      forall r, k | r in ports && k in keys ensures k !in Keys(r.cubes) {
        assert r.Sane();
        ListedApart(r.cubes, k, r.parent.xdp);
      }
      forall e, k | e in ifaces && k in keys ensures k !in Keys(e.cubes) {
        assert e.Sane();
        ListedApart(e.cubes, k, e.xdp);
      }
    }

    lemma ListedApart(cubes: seq<TransparentCube>, k: nat, xdp: bool)
      requires k != 0 && Unused(k) && Listed(cubes, kernel, xdp)
      ensures k !in Keys(cubes)
    {
    }

    /** New objects without peers and cubes, and new programs under unused indexes, keep
        every invariant. */
    twostate lemma Grown(new keys: set<nat>)
      requires old(Valid()) && kernel.Valid() && ParentsLoaded(kernel.maps) && Lists()
      requires forall r :: r in old(ports) ==> unchanged(r) && Keys(r.cubes) !! keys
      requires forall e :: e in old(ifaces) ==> unchanged(e) && Keys(e.cubes) !! keys
      requires kernel.current == old(kernel.current) && Within(old(kernel.maps), kernel.maps, keys, keys, {})
      requires old(ports) <= ports && old(ifaces) <= ifaces
      requires forall p :: p in ports && p !in old(ports) ==> p.peer == NoPeer && PortSettled(p, kernel.maps)
      requires forall e :: e in ifaces && e !in old(ifaces) ==> e.peer == null && IfaceSettled(e, kernel.maps, kernel)
      ensures Valid()
    {
      StillSettled(keys);
    }

    method AddPort(parent: Cube, id: nat, garbage: nat) returns (p: Port)
      requires Valid() && parent in parents && forall r :: r in ports ==> (r.parent.id, r.id) != (parent.id, id)
      modifies this`ports
      ensures fresh(p) && ports == old(ports) + {p} && p.parent == parent && p.id == id && p.cubes == [] &&
              p.peer == NoPeer
      ensures Valid()
    {
      hide *;
      p := new Port(parent, id, garbage);
      ports := ports + {p};
      PortAdded(p);
    }

    twostate lemma PortAdded(new p: Port)
      requires old(Valid()) && p !in old(ports) && p.parent in parents && p.cubes == [] && p.peer == NoPeer && !p.linked
      requires ports == old(ports) + {p} && ifaces == old(ifaces) && parents == old(parents)
      requires kernel.cubes == old(kernel.cubes) && kernel.maps == old(kernel.maps) &&
               kernel.current == old(kernel.current)
      requires forall r :: r in old(ports) ==> unchanged(r) && (r.parent.id, r.id) != (p.parent.id, p.id)
      requires forall e :: e in old(ifaces) ==> unchanged(e)
      requires forall c :: c in kernel.cubes ==> unchanged(c)
      ensures Valid()
    {
      hide Network.Valid, Network.Lists, Kernel.Valid, Network.ParentsLoaded;
      ProgramsSame();
      ListsGrown();
      Grown({});
    }

    /** Nothing happened to any program. */
    twostate lemma ProgramsSame()
      requires old(Valid()) && parents == old(parents)
      requires kernel.cubes == old(kernel.cubes) && kernel.maps == old(kernel.maps) &&
               kernel.current == old(kernel.current)
      requires forall c :: c in kernel.cubes ==> unchanged(c)
      ensures kernel.Valid() && ParentsLoaded(kernel.maps)
    {
      hide Network.Lists, Network.Links, Network.Settled;
    }

    /** New ports and netdevs without cubes keep the lists apart. */
    twostate lemma ListsGrown()
      requires old(Valid()) && parents == old(parents) && kernel.cubes == old(kernel.cubes)
      requires forall r :: r in ports ==> if r in old(ports) then unchanged(r) else r.parent in parents && r.cubes == []
      requires forall e :: e in ifaces ==>
                 if e in old(ifaces) then unchanged(e) else e.kernel == kernel && e.cubes == [] && 0 < e.ifindex < PASS
      requires forall r, q :: r in ports && q in ports && r != q && q !in old(ports) ==> r.Slot() != q.Slot()
      ensures Lists()
    {
      forall r | r in ports ensures r.parent in parents && r.parent.kernel == kernel && r.Sane() {
        assert r in old(ports) ==> old(r.Sane());
      }
      forall e | e in ifaces ensures e.kernel == kernel && e.Sane() {
        assert e in old(ifaces) ==> old(e.Sane());
      }
    }

    method AddNetdev(ifindex: nat, xdp: bool) returns (e: ExtIface)
      requires Valid() && 0 < ifindex < PASS
      modifies this`ifaces
      ensures fresh(e) && ifaces == old(ifaces) + {e} && e.ifindex == ifindex && e.xdp == xdp && e.cubes == [] &&
              e.peer == null
      ensures Valid()
    {
      hide *;
      e := new ExtIface(kernel, ifindex, xdp);
      ifaces := ifaces + {e};
      NetdevAdded(e);
    }

    twostate lemma NetdevAdded(new e: ExtIface)
      requires old(Valid()) && e !in old(ifaces) && e.kernel == kernel && 0 < e.ifindex < PASS && e.cubes == [] &&
               e.peer == null
      requires e.IngressLinked(kernel.maps, e.IngressTail()) && e.ingressPort == e.PeerId() &&
               e.EgressLinked(kernel.maps)
      requires ports == old(ports) && ifaces == old(ifaces) + {e} && parents == old(parents)
      requires kernel.cubes == old(kernel.cubes) && kernel.maps == old(kernel.maps) &&
               kernel.current == old(kernel.current)
      requires forall r :: r in old(ports) ==> unchanged(r)
      requires forall f :: f in old(ifaces) ==> unchanged(f)
      requires forall c :: c in kernel.cubes ==> unchanged(c)
      ensures Valid()
    {
      hide Network.Valid, Network.Lists, Kernel.Valid, Network.ParentsLoaded;
      ProgramsSame();
      ListsGrown();
      Grown({});
    }

    /** A new forwarding cube; the patch panel gives its programs unused indexes. */
    method AddCube(id: nat, xdp: bool, ingressIndex: nat, egressIndex: nat) returns (c: Cube)
      requires Valid() && 0 < ingressIndex != egressIndex && Unused(ingressIndex) && Unused(egressIndex)
      requires forall d :: d in parents ==> d.id != id
      modifies this`parents, kernel`maps
      ensures fresh(c) && parents == old(parents) + {c} && c.kernel == kernel && c.id == id && c.xdp == xdp
      ensures c.ingressIndex == ingressIndex && c.egressIndex == egressIndex
      ensures Valid()
    {
      hide *;
      UnusedKeys(ingressIndex, egressIndex);
      c := new Cube(kernel, id, xdp, ingressIndex, egressIndex);
      parents := parents + {c};
      CubeAdded(c);
    }

    lemma UnusedKeys(i: nat, j: nat)
      requires Valid() && Unused(i) && Unused(j)
      ensures i < MAX_NODES && j < MAX_NODES
      ensures forall d :: d in parents ==> d.Keys() !! {i, j} - {0}
      ensures forall t :: t in kernel.cubes ==> t.Keys() !! {i, j}
      ensures forall r :: r in ports ==> Keys(r.cubes) !! {i, j} - {0}
      ensures forall e :: e in ifaces ==> Keys(e.cubes) !! {i, j} - {0}
    {
      UnusedApart({i, j} - {0});
    }

    /** Lists stay apart while their cubes and the cubes of their ports are there. */
    twostate lemma ListsSurvive()
      requires old(Valid()) && ports <= old(ports) && ifaces <= old(ifaces)
      requires forall r :: r in ports ==> unchanged(r) && (r.parent in old(parents) ==> r.parent in parents)
      requires forall e :: e in ifaces ==> unchanged(e)
      requires forall c, r :: c in old(kernel.cubes) && c !in kernel.cubes && r in ports ==> c !in r.cubes
      requires forall c, e :: c in old(kernel.cubes) && c !in kernel.cubes && e in ifaces ==> c !in e.cubes
      ensures Lists()
    {
      forall r | r in ports ensures r.Sane() && r.parent in parents && r.parent.kernel == kernel {
        assert old(r.Sane());
      }
      forall e | e in ifaces ensures e.Sane() && e.kernel == kernel { assert old(e.Sane()); }
    }

    twostate lemma CubeAdded(new c: Cube)
      requires old(Valid()) && parents == old(parents) + {c} && ports == old(ports) && ifaces == old(ifaces)
      requires c.kernel == kernel && c.Loaded(kernel.maps) && c.ingressIndex < MAX_NODES && c.egressIndex < MAX_NODES
      requires forall d :: d in old(parents) ==> d.id != c.id && d.Keys() !! {c.ingressIndex, c.egressIndex} - {0}
      requires forall t :: t in old(kernel.cubes) ==> t.Keys() !! {c.ingressIndex, c.egressIndex} && unchanged(t)
      requires forall r :: r in ports ==> Keys(r.cubes) !! {c.ingressIndex, c.egressIndex} - {0} && unchanged(r)
      requires forall e :: e in ifaces ==> Keys(e.cubes) !! {c.ingressIndex, c.egressIndex} - {0} && unchanged(e)
      requires kernel.cubes == old(kernel.cubes) && kernel.current == old(kernel.current)
      requires Within(old(kernel.maps), kernel.maps, c.Keys(), c.Keys(), {})
      ensures Valid()
    {
      ListsSurvive();
      KernelKept(c.Keys());
      ParentsGrown(c);
      Grown(c.Keys());
    }

    /** The cubes that are left stay loaded when only other programs change. */
    twostate lemma KernelKept(new keys: set<nat>)
      requires old(kernel.Valid()) && kernel.cubes <= old(kernel.cubes) && kernel.current == old(kernel.current)
      requires forall t :: t in kernel.cubes ==> t.Keys() !! keys && unchanged(t)
      requires Within(old(kernel.maps), kernel.maps, keys, keys, {})
      ensures kernel.Valid()
    {
      forall t | t in kernel.cubes
        ensures t.Loaded(kernel.maps) && (t in kernel.current ==> t.CopyFresh(kernel.maps))
      {
        assert old(t.Loaded(kernel.maps)) && (t in kernel.current ==> old(t.CopyFresh(kernel.maps)));
        t.StillLoaded(old(kernel.maps), kernel.maps, keys);
      }
    }

    twostate lemma ParentsGrown(new c: Cube)
      requires old(ParentsLoaded(kernel.maps)) && parents == old(parents) + {c} && kernel.cubes == old(kernel.cubes)
      requires c.kernel == kernel && c.Loaded(kernel.maps) && c.ingressIndex < MAX_NODES && c.egressIndex < MAX_NODES
      requires forall d :: d in old(parents) ==> d.id != c.id && d.Keys() !! {c.ingressIndex, c.egressIndex} - {0}
      requires forall t :: t in kernel.cubes ==> t.Keys() !! {c.ingressIndex, c.egressIndex}
      requires Within(old(kernel.maps), kernel.maps, c.Keys(), c.Keys(), {})
      ensures ParentsLoaded(kernel.maps)
    {
      assert SameAt(old(kernel.maps.tc), kernel.maps.tc, 0) && SameAt(old(kernel.maps.xdp), kernel.maps.xdp, 0);
      forall d | d in old(parents) ensures d.Loaded(kernel.maps) {
        d.StillLoaded(old(kernel.maps), kernel.maps, c.Keys(), {});
      }
    }

    /** A new transparent cube, attached nowhere yet. */
    method AddTransparentCube(name: string, service: string, xdp: bool, ingressIndex: nat, egressIndex: nat)
      returns (t: TransparentCube)
      requires Valid() && (ingressIndex == 0 || ingressIndex != egressIndex) && Unused(ingressIndex) &&
               Unused(egressIndex)
      modifies kernel
      ensures fresh(t) && kernel.cubes == old(kernel.cubes) + {t} && t.name == name && t.service == service &&
              t.xdp == xdp
      ensures t.ingressIndex == ingressIndex && t.egressIndex == egressIndex
      ensures Valid()
    {
      hide *;
      KernelFacts();
      UnusedKeys(ingressIndex, egressIndex);
      t := new TransparentCube(kernel, name, service, xdp, ingressIndex, egressIndex);
      TransparentCubeAdded(t);
    }

    lemma KernelFacts()
      requires Valid()
      ensures kernel.Valid() && 0 !in kernel.maps.tc && 0 !in kernel.maps.xdp
    {
    }

    twostate lemma TransparentCubeAdded(new t: TransparentCube)
      requires old(Valid()) && kernel.Valid() && kernel.cubes == old(kernel.cubes) + {t} &&
               kernel.current == old(kernel.current)
      requires parents == old(parents) && ports == old(ports) && ifaces == old(ifaces)
      requires forall d :: d in parents ==> d.Keys() !! {t.ingressIndex, t.egressIndex} - {0}
      requires forall r :: r in ports ==> Keys(r.cubes) !! {t.ingressIndex, t.egressIndex} - {0} && unchanged(r)
      requires forall e :: e in ifaces ==> Keys(e.cubes) !! {t.ingressIndex, t.egressIndex} - {0} && unchanged(e)
      requires Within(old(kernel.maps), kernel.maps, t.Keys(), t.Keys(), {})
      ensures Valid()
    {
      ListsSurvive();
      ParentsFrame(old(kernel.maps), kernel.maps, t.Keys(), {});
      Grown(t.Keys());
    }

    // --------------------------------------------------- removed objects

    /** Removing objects without peers, and the programs of cubes that are not attached,
        keeps every invariant. */
    twostate lemma Shrunk(new keys: set<nat>)
      requires old(Valid()) && kernel.Valid() && ParentsLoaded(kernel.maps) && Lists()
      requires forall r :: r in old(ports) ==> unchanged(r) && (r in ports ==> Keys(r.cubes) !! keys)
      requires forall e :: e in old(ifaces) ==> unchanged(e) && (e in ifaces ==> Keys(e.cubes) !! keys)
      requires kernel.current == old(kernel.current) && Within(old(kernel.maps), kernel.maps, keys, keys, {})
      requires ports <= old(ports) && ifaces <= old(ifaces)
      requires forall p :: p in old(ports) && p !in ports ==> p.peer == NoPeer
      requires forall e :: e in old(ifaces) && e !in ifaces ==> e.peer == null
      ensures Valid()
    {
      forall r | r in ports ensures PortSettled(r, kernel.maps) {
        assert old(PortSettled(r, kernel.maps)) && r.Tail() == old(r.Tail());
        PortFrame(r, old(kernel.maps), kernel.maps, keys, {});
      }
      forall e | e in ifaces ensures IfaceSettled(e, kernel.maps, kernel) {
        assert old(IfaceSettled(e, kernel.maps, kernel)) && e.IngressTail() == old(e.IngressTail());
        IfaceFrame(e, old(kernel.maps), kernel.maps, keys, {}, kernel);
      }
    }

    /** Removes a port after it was disconnected; its cubes are detached by that. */
    method RemovePort(p: Port)
      requires Valid() && p in ports && p.peer == NoPeer
      modifies this`ports
      ensures Valid() && ports == old(ports) - {p}
    {
      hide *;
      ports := ports - {p};
      ObjectRemoved();
    }

    method RemoveNetdev(e: ExtIface)
      requires Valid() && e in ifaces && e.peer == null
      modifies this`ifaces
      ensures Valid() && ifaces == old(ifaces) - {e}
    {
      hide *;
      ifaces := ifaces - {e};
      ObjectRemoved();
    }

    twostate lemma ObjectRemoved()
      requires old(Valid()) && parents == old(parents) && ports <= old(ports) && ifaces <= old(ifaces)
      requires forall p :: p in old(ports) && p !in ports ==> p.peer == NoPeer
      requires forall e :: e in old(ifaces) && e !in ifaces ==> e.peer == null
      requires unchanged(kernel) && forall c :: c in kernel.cubes ==> unchanged(c)
      requires forall r :: r in old(ports) ==> unchanged(r)
      requires forall e :: e in old(ifaces) ==> unchanged(e)
      ensures Valid()
    {
      ListsSurvive();
      Shrunk({});
    }

    /** Destroys a transparent cube that is not attached: its programs leave the panel of
        its hook, and its indexes can be used again. */
    method RemoveTransparentCube(t: TransparentCube)
      requires Valid() && t in kernel.cubes && Detached(t)
      modifies kernel`cubes, kernel`maps
      ensures Valid() && kernel.cubes == old(kernel.cubes) - {t}
      ensures forall i :: i in t.Keys() ==> Unused(i)
    {
      hide *;
      CubeApart(t);
      kernel.Unload(t.xdp, t.Keys());
      kernel.cubes := kernel.cubes - {t};
      TransparentCubeRemoved(t);
      KeysUnused(t);
    }

    lemma CubeApart(t: TransparentCube)
      requires Valid() && t in kernel.cubes && Detached(t)
      ensures forall r :: r in ports ==> t !in r.cubes && Keys(r.cubes) !! t.Keys()
      ensures forall e :: e in ifaces ==> t !in e.cubes && Keys(e.cubes) !! t.Keys()
    {
      forall r | r in ports ensures Keys(r.cubes) !! t.Keys() {
        assert r.Sane();
        ListApart(r.cubes, t, r.parent.xdp);
      }
      forall e | e in ifaces ensures Keys(e.cubes) !! t.Keys() {
        assert e.Sane();
        ListApart(e.cubes, t, e.xdp);
      }
    }

    lemma ListApart(cubes: seq<TransparentCube>, t: TransparentCube, xdp: bool)
      requires kernel.Valid() && t in kernel.cubes && Listed(cubes, kernel, xdp) && t !in cubes
      ensures Keys(cubes) !! t.Keys()
    {
      assert forall i :: 0 <= i < |cubes| ==> cubes[i].Keys() !! t.Keys();
    }

    twostate lemma TransparentCubeRemoved(t: TransparentCube)
      requires old(Valid()) && t in old(kernel.cubes) && kernel.cubes == old(kernel.cubes) - {t}
      requires parents == old(parents) && ports == old(ports) && ifaces == old(ifaces) &&
               kernel.current == old(kernel.current)
      requires forall r :: r in ports ==> unchanged(r) && t !in r.cubes && Keys(r.cubes) !! t.Keys()
      requires forall e :: e in ifaces ==> unchanged(e) && t !in e.cubes && Keys(e.cubes) !! t.Keys()
      requires forall c :: c in kernel.cubes ==> unchanged(c)
      requires Within(old(kernel.maps), kernel.maps, t.Keys(), t.Keys(), {})
      ensures Valid()
    {
      ListsSurvive();
      KernelKept(t.Keys());
      ParentsFrame(old(kernel.maps), kernel.maps, t.Keys(), {});
      Shrunk(t.Keys());
    }

    twostate lemma KeysUnused(t: TransparentCube)
      requires old(Valid()) && t in old(kernel.cubes) && kernel.cubes == old(kernel.cubes) - {t} &&
               parents == old(parents)
      ensures forall i :: i in t.Keys() ==> Unused(i)
    {
      assert old(t.Loaded(kernel.maps));
    }

    /** Destroys a forwarding cube whose ports are gone. */
    method RemoveCube(c: Cube)
      requires Valid() && c in parents && forall r :: r in ports ==> r.parent != c
      modifies this`parents, kernel`maps
      ensures Valid() && parents == old(parents) - {c}
      ensures forall i :: i in c.Keys() ==> Unused(i)
    {
      hide *;
      ParentApart(c);
      kernel.Unload(c.xdp, c.Keys());
      parents := parents - {c};
      CubeRemoved(c);
    }

    lemma ParentApart(c: Cube)
      requires Valid() && c in parents
      ensures forall r :: r in ports ==> Keys(r.cubes) !! c.Keys()
      ensures forall e :: e in ifaces ==> Keys(e.cubes) !! c.Keys()
      ensures forall t :: t in kernel.cubes ==> t.Keys() !! c.Keys()
    {
      forall r | r in ports ensures Keys(r.cubes) !! c.Keys() {
        assert r.Sane();
        ParentsApart(r.cubes, r.parent.xdp, kernel.maps);
      }
      forall e | e in ifaces ensures Keys(e.cubes) !! c.Keys() {
        assert e.Sane();
        ParentsApart(e.cubes, e.xdp, kernel.maps);
      }
    }

    twostate lemma CubeRemoved(c: Cube)
      requires old(Valid()) && c in old(parents) && parents == old(parents) - {c} && ports == old(ports) &&
               ifaces == old(ifaces)
      requires kernel.cubes == old(kernel.cubes) && kernel.current == old(kernel.current)
      requires forall r :: r in ports ==> unchanged(r) && r.parent != c && Keys(r.cubes) !! c.Keys()
      requires forall e :: e in ifaces ==> unchanged(e) && Keys(e.cubes) !! c.Keys()
      requires forall t :: t in old(kernel.cubes) ==> unchanged(t) && t.Keys() !! c.Keys()
      requires Within(old(kernel.maps), kernel.maps, c.Keys(), c.Keys(), {})
      ensures Valid() && forall i :: i in c.Keys() ==> Unused(i)
    {
      ListsSurvive();
      KernelKept(c.Keys());
      ParentsFrame(old(kernel.maps), kernel.maps, c.Keys(), {});
      assert old(c.Loaded(kernel.maps));
      Shrunk(c.Keys());
    }

    // ------------------------------------------------ attach and detach

    /** t is attached nowhere. */
    ghost predicate Detached(t: TransparentCube)
      reads this, ports`cubes, ifaces`cubes
    {
      && (forall r :: r in ports ==> t !in r.cubes)
      && (forall e :: e in ifaces ==> t !in e.cubes)
    }

    twostate lemma StillValid()
      requires old(Valid()) && unchanged(this) && unchanged(kernel)
      requires forall c :: c in kernel.cubes ==> unchanged(c)
      requires forall r :: r in ports ==> unchanged(r)
      requires forall e :: e in ifaces ==> unchanged(e)
      ensures Valid()
    {
      assert forall o :: o in old(Peers()) ==> o in ports || o in ifaces;
      forall r | r in ports ensures r.parent in parents && r.parent.kernel == kernel && r.Sane() {
        assert old(r.Sane());
      }
      forall e | e in ifaces ensures e.kernel == kernel && e.Sane() { assert old(e.Sane()); }
    }

    lemma Inserted(own: seq<TransparentCube>, i: nat, t: TransparentCube, xdp: bool)
      requires i <= |own| && Detached(t) && t in kernel.cubes && t.xdp == xdp && Listed(own, kernel, xdp) && t !in own
      ensures Listed(Insert(own, i, t), kernel, xdp)
      ensures forall r :: r in ports && Disjoint(r.cubes, own) ==> Disjoint(r.cubes, Insert(own, i, t))
      ensures forall e :: e in ifaces && Disjoint(e.cubes, own) ==> Disjoint(e.cubes, Insert(own, i, t))
    {
    }

    lemma Removed(own: seq<TransparentCube>, i: nat, xdp: bool)
      requires i < |own| && Listed(own, kernel, xdp)
      ensures Listed(own[..i] + own[i+1..], kernel, xdp)
      ensures forall r :: r in ports && Disjoint(r.cubes, own) ==> Disjoint(r.cubes, own[..i] + own[i+1..])
      ensures forall e :: e in ifaces && Disjoint(e.cubes, own) ==> Disjoint(e.cubes, own[..i] + own[i+1..])
    {
      var s := own[..i] + own[i+1..];
      assert forall j :: 0 <= j < |s| ==> s[j] == own[if j < i then j else j + 1];
    }

    lemma OthersApartFromPort(p: Port)
      requires Valid() && p in ports
      ensures Listed(p.cubes, kernel, p.parent.xdp)
      ensures forall r :: r in ports && r != p ==> Disjoint(r.cubes, p.cubes)
      ensures forall e :: e in ifaces ==> Disjoint(e.cubes, p.cubes)
    {
      assert p.Sane();
      assert forall e :: e in ifaces ==> Disjoint(p.cubes, e.cubes);
    }

    lemma OthersApartFromIface(e: ExtIface)
      requires Valid() && e in ifaces
      ensures Listed(e.cubes, kernel, e.xdp)
      ensures forall r :: r in ports ==> Disjoint(r.cubes, e.cubes)
      ensures forall f :: f in ifaces && f != e ==> Disjoint(f.cubes, e.cubes)
    {
      assert e.Sane();
    }

    /** Attaches a cube to a port, at a place named as in the request. */
    method AttachToPort(p: Port, t: TransparentCube, position: string, other: string,
                        garbage: Comparison) returns (r: Result<nat>)
      requires Valid() && p in ports && t in kernel.cubes && t.xdp == p.parent.xdp && Detached(t)
      requires MayAsk(Names(p.cubes), position, other) && (p.peer.ToIface? ==> p.peer.iface.ScanSafe())
      modifies p`cubes, p`portIndex, p`linked, kernel`maps, kernel`current, kernel.cubes`next
      modifies if p.peer.ToIface? then {p.peer.iface} else {}
      ensures Valid() && p.peer == old(p.peer)
      ensures r.Error? <==> Refused(Names(old(p.cubes)), Services(old(p.cubes)), t.service, position, other)
      ensures r.Error? ==> p.cubes == old(p.cubes) && kernel.maps == old(kernel.maps)
      ensures r.Ok? ==> r.value <= |old(p.cubes)| && p.cubes == Insert(old(p.cubes), r.value, t)
      ensures r.Ok? ==>
                RightPlace(Names(old(p.cubes)), Services(old(p.cubes)), t.service, position, other, r.value)
    {
      hide *;
      r := FindPosition(Names(p.cubes), Services(p.cubes), t.service, position, other, garbage);
      StillValid();
      if r.Error? { return; }
      OthersApartFromPort(p);
      NotIn(t);
      Inserted(p.cubes, r.value, t, p.parent.xdp);
      SetPortCubes(p, Insert(p.cubes, r.value, t));
    }

    lemma NotIn(t: TransparentCube)
      requires Detached(t)
      ensures forall r :: r in ports ==> t !in r.cubes
      ensures forall e :: e in ifaces ==> t !in e.cubes
    {
    }

    /** Detaches the first cube of that name. */
    method DetachFromPort(p: Port, name: string) returns (r: Result<nat>)
      requires Valid() && p in ports && (p.peer.ToIface? ==> p.peer.iface.ScanSafe())
      modifies p`cubes, p`portIndex, p`linked, kernel`maps, kernel`current, kernel.cubes`next
      modifies if p.peer.ToIface? then {p.peer.iface} else {}
      ensures Valid() && p.peer == old(p.peer)
      ensures r.Error? <==> name !in Names(old(p.cubes))
      ensures r.Error? ==> p.cubes == old(p.cubes) && kernel.maps == old(kernel.maps)
      ensures r.Ok? ==> r.value < |old(p.cubes)| && old(p.cubes)[r.value].name == name
      ensures r.Ok? ==> forall j :: 0 <= j < r.value ==> old(p.cubes)[j].name != name
      ensures r.Ok? ==> p.cubes == old(p.cubes)[..r.value] + old(p.cubes)[r.value+1..]
    {
      hide *;
      var i := IndexOf(Names(p.cubes), name);
      StillValid();
      if i == |p.cubes| { return Error(NO_SUCH_CUBE); }
      OthersApartFromPort(p);
      Removed(p.cubes, i, p.parent.xdp);
      SetPortCubes(p, p.cubes[..i] + p.cubes[i+1..]);
      r := Ok(i);
    }

    method AttachToIface(e: ExtIface, t: TransparentCube, position: string, other: string,
                         garbage: Comparison) returns (r: Result<nat>)
      requires Valid() && e in ifaces && t in kernel.cubes && t.xdp == e.xdp && Detached(t)
      requires MayAsk(Names(e.cubes), position, other)
      modifies e, kernel`maps, kernel`current, kernel.cubes`next
      ensures Valid() && e.peer == old(e.peer)
      ensures r.Error? <==> Refused(Names(old(e.cubes)), Services(old(e.cubes)), t.service, position, other)
      ensures r.Error? ==> e.cubes == old(e.cubes) && kernel.maps == old(kernel.maps)
      ensures r.Ok? ==> r.value <= |old(e.cubes)| && e.cubes == Insert(old(e.cubes), r.value, t)
      ensures r.Ok? ==>
                RightPlace(Names(old(e.cubes)), Services(old(e.cubes)), t.service, position, other, r.value)
    {
      hide *;
      r := FindPosition(Names(e.cubes), Services(e.cubes), t.service, position, other, garbage);
      StillValid();
      if r.Error? { return; }
      OthersApartFromIface(e);
      NotIn(t);
      Inserted(e.cubes, r.value, t, e.xdp);
      SetIfaceCubes(e, Insert(e.cubes, r.value, t));
    }

    method DetachFromIface(e: ExtIface, name: string) returns (r: Result<nat>)
      requires Valid() && e in ifaces
      modifies e, kernel`maps, kernel`current, kernel.cubes`next
      ensures Valid() && e.peer == old(e.peer)
      ensures r.Error? <==> name !in Names(old(e.cubes))
      ensures r.Error? ==> e.cubes == old(e.cubes) && kernel.maps == old(kernel.maps)
      ensures r.Ok? ==> r.value < |old(e.cubes)| && old(e.cubes)[r.value].name == name
      ensures r.Ok? ==> forall j :: 0 <= j < r.value ==> old(e.cubes)[j].name != name
      ensures r.Ok? ==> e.cubes == old(e.cubes)[..r.value] + old(e.cubes)[r.value+1..]
    {
      hide *;
      var i := IndexOf(Names(e.cubes), name);
      StillValid();
      if i == |e.cubes| { return Error(NO_SUCH_CUBE); }
      OthersApartFromIface(e);
      Removed(e.cubes, i, e.xdp);
      SetIfaceCubes(e, e.cubes[..i] + e.cubes[i+1..]);
      r := Ok(i);
    }
  }

  function Names(cubes: seq<TransparentCube>): (r: seq<string>)
    ensures |r| == |cubes| && forall i :: 0 <= i < |r| ==> r[i] == cubes[i].name
  {
    seq(|cubes|, i requires 0 <= i < |cubes| => cubes[i].name)
  }

  function Services(cubes: seq<TransparentCube>): (r: seq<string>)
    ensures |r| == |cubes| && forall i :: 0 <= i < |r| ==> r[i] == cubes[i].service
  {
    seq(|cubes|, i requires 0 <= i < |cubes| => cubes[i].service)
  }
}
