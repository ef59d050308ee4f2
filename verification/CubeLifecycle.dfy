/** Cubes created and destroyed: the patch panel hands out the indexes under which the
    network runs their programs. */
module CubeLifecycle {
  import opened ServiceChain
  import TransparentCubes
  import Peers
  import Topology
  import PatchPanel

  type Forwarding = Peers.Cube
  type Transparent = TransparentCubes.TransparentCube

  /** One daemon.  A cube has its links in the network and its programs in the panels. */
  class Host {
    const network: Topology.Network
    const daemon: PatchPanel.Daemon
    var forwarding: map<Forwarding, PatchPanel.Cube>
    var transparent: map<Transparent, PatchPanel.Cube>

    constructor ()
      ensures Valid() && network.parents == {} && network.kernel.cubes == {} && daemon.cubes == {}
    {
      network := new Topology.Network();
      daemon := new PatchPanel.Daemon();
      forwarding, transparent := map[], map[];
    }

    /** Every cube of the network runs under the indexes of its own cube of the panels. */
    ghost predicate Matched()
      reads this, network, network.kernel`cubes, daemon`cubes, daemon.cubes
    {
      && forwarding.Keys == network.parents && transparent.Keys == network.kernel.cubes
      && (forall c :: c in forwarding ==> forwarding[c] in daemon.cubes)
      && (forall t :: t in transparent ==> transparent[t] in daemon.cubes)
      && (forall c :: c in forwarding ==>
            c.ingressIndex == forwarding[c].ingressIndex && c.egressIndex == forwarding[c].egressIndex)
      && (forall t :: t in transparent ==>
            t.ingressIndex == transparent[t].ingressIndex && t.egressIndex == transparent[t].egressIndex)
      && (forall c, d :: c in forwarding && d in forwarding && c != d ==> forwarding[c] != forwarding[d])
      && (forall t, u :: t in transparent && u in transparent && t != u ==> transparent[t] != transparent[u])
      && (forall c, t :: c in forwarding && t in transparent ==> forwarding[c] != transparent[t])
    }

    ghost predicate Valid()
      reads this, network, network.kernel, network.kernel.cubes, network.ports, network.ifaces, network.Peers()
      reads daemon, daemon.panels, daemon.panels.tc, daemon.panels.xdp, daemon.cubes
    {
      network.Valid() && daemon.Valid() && Matched()
    }

    /** No program of the network runs under an index that the panel has free, or under one
        of a cube that is not in the network yet. */
    lemma FreeIsUnused(i: nat)
      requires daemon.Valid() && Matched() && i in daemon.panels.free
      ensures network.Unused(i)
    {
      forall c | c in network.parents ensures i !in c.Keys() {
        daemon.NoSharing(forwarding[c], forwarding[c]);
      }
      forall t | t in network.kernel.cubes ensures i !in t.Keys() {
        daemon.NoSharing(transparent[t], transparent[t]);
      }
    }

    lemma NewIsUnused(h: PatchPanel.Cube)
      requires daemon.Valid() && Matched() && h in daemon.cubes
      requires h !in forwarding.Values && h !in transparent.Values
      ensures network.Unused(h.ingressIndex) && network.Unused(h.egressIndex)
      ensures h.ingressIndex != 0 ==> h.ingressIndex != h.egressIndex
    {
      assert daemon.Owned(h);
      forall c | c in network.parents ensures c.Keys() !! h.Keys() {
        daemon.NoSharing(h, forwarding[c]);
      }
      forall t | t in network.kernel.cubes ensures t.Keys() !! h.Keys() {
        daemon.NoSharing(h, transparent[t]);
      }
      assert h.ingressIndex != 0 ==> h.ingressIndex in h.Keys();
      assert h.egressIndex != 0 ==> h.egressIndex in h.Keys();
      daemon.NoSharing(h, h);
    }

    lemma Parts()
      requires Valid()
      ensures network.Valid() && daemon.Valid() && Matched()
    {
    }

    /** Nothing happened to the panels. */
    twostate lemma DaemonKept()
      requires old(daemon.Valid()) && unchanged(daemon)
      requires unchanged(daemon.panels) && unchanged(daemon.panels.tc) && unchanged(daemon.panels.xdp)
      requires forall h :: h in daemon.cubes ==> unchanged(h)
      ensures daemon.Valid()
    {
      hide PatchPanel.Panels.Valid, PatchPanel.Cube.Holds;
      assert forall h :: h in daemon.cubes ==> old(daemon.Owned(h));
    }

    twostate lemma ForwardingAdded(new c: Forwarding, new h: PatchPanel.Cube)
      requires old(daemon.Valid()) && old(Matched()) && network.Valid() && unchanged(daemon)
      requires unchanged(daemon.panels) && unchanged(daemon.panels.tc) && unchanged(daemon.panels.xdp)
      requires forall d :: d in daemon.cubes ==> unchanged(d)
      requires c !in old(network.parents) && network.parents == old(network.parents) + {c}
      requires network.kernel.cubes == old(network.kernel.cubes) && transparent == old(transparent)
      requires forwarding == old(forwarding)[c := h] && h in daemon.cubes
      requires h !in old(forwarding).Values && h !in old(transparent).Values
      requires c.ingressIndex == h.ingressIndex && c.egressIndex == h.egressIndex
      ensures Valid()
    {
      hide Topology.Network.Valid, PatchPanel.Daemon.Valid;
      DaemonKept();
    }

    twostate lemma TransparentAdded(new t: Transparent, new h: PatchPanel.Cube)
      requires old(daemon.Valid()) && old(Matched()) && network.Valid() && unchanged(daemon)
      requires unchanged(daemon.panels) && unchanged(daemon.panels.tc) && unchanged(daemon.panels.xdp)
      requires forall d :: d in daemon.cubes ==> unchanged(d)
      requires t !in old(network.kernel.cubes) && network.kernel.cubes == old(network.kernel.cubes) + {t}
      requires network.parents == old(network.parents) && forwarding == old(forwarding)
      requires transparent == old(transparent)[t := h] && h in daemon.cubes
      requires h !in old(forwarding).Values && h !in old(transparent).Values
      requires t.ingressIndex == h.ingressIndex && t.egressIndex == h.egressIndex
      ensures Valid()
    {
      hide Topology.Network.Valid, PatchPanel.Daemon.Valid;
      DaemonKept();
    }

    /** The cubes that are left keep their indexes. */
    twostate lemma StillMatched(new h: PatchPanel.Cube)
      requires old(Matched()) && daemon.cubes == old(daemon.cubes) - {h} && forall d :: d in daemon.cubes ==>
                 unchanged(d)
      requires forall c :: c in forwarding <==> c in old(forwarding) && old(forwarding)[c] != h
      requires forall t :: t in transparent <==> t in old(transparent) && old(transparent)[t] != h
      requires forall c :: c in forwarding ==> forwarding[c] == old(forwarding)[c]
      requires forall t :: t in transparent ==> transparent[t] == old(transparent)[t]
      requires forwarding.Keys == network.parents && transparent.Keys == network.kernel.cubes
      ensures Matched()
    {
    }

    /** The programs of a cube that is being created, in the panels. */
    method LoadPrograms(xdp: bool, hasIngress: bool, hasEgress: bool) returns (h: PatchPanel.Cube)
      requires Valid() && |daemon.panels.free| >= 2
      modifies daemon, daemon.panels`free, daemon.panels.tc, daemon.panels.xdp
      ensures fresh(h) && daemon.cubes == old(daemon.cubes) + {h} && Valid()
      ensures h !in forwarding.Values && h !in transparent.Values
      ensures (h.ingressIndex != 0 <==> hasIngress) && (h.egressIndex != 0 <==> hasEgress)
    {
      hide *;
      Parts();
      h := daemon.NewCube(xdp);
      PatchPanel.FirstIsFree();
      ghost var free := daemon.panels.free;
      h.KeysOf();
      if hasIngress { var _ := daemon.AddProgram(h, 0, false); }
      h.KeysOf();
      Remains(free, h.Keys());
      if hasEgress { var _ := daemon.AddProgram(h, 0, true); }
      ProgramsLoaded(h);
    }

    lemma Remains(a: set<nat>, b: set<nat>)
      requires |a| >= 2 && |b| <= 1
      ensures a - b != {}
    {
      assert a == a * b + (a - b) && b == a * b + (b - a);
    }

    twostate lemma ProgramsLoaded(new h: PatchPanel.Cube)
      requires old(Valid()) && unchanged(this) && unchanged(network) && unchanged(network.kernel)
      requires forall c :: c in network.kernel.cubes ==> unchanged(c)
      requires forall r :: r in network.ports ==> unchanged(r)
      requires forall e :: e in network.ifaces ==> unchanged(e)
      requires daemon.Valid() && daemon.cubes == old(daemon.cubes) + {h} && h !in old(daemon.cubes)
      requires forall d :: d in old(daemon.cubes) ==> unchanged(d)
      ensures Valid() && h !in forwarding.Values && h !in transparent.Values
    {
      hide Topology.Network.Valid, PatchPanel.Daemon.Valid;
      network.StillValid();
    }

    method CreateCube(id: nat, xdp: bool, hasEgress: bool) returns (c: Forwarding)
      requires Valid() && |daemon.panels.free| >= 2 && forall d :: d in network.parents ==> d.id != id
      modifies this`forwarding, network`parents, network.kernel`maps
      modifies daemon, daemon.panels`free, daemon.panels.tc, daemon.panels.xdp
      ensures Valid() && fresh(c) && network.parents == old(network.parents) + {c} && c.id == id && c.xdp == xdp
      ensures c.ingressIndex != 0 && (c.egressIndex != 0 <==> hasEgress)
      ensures c in forwarding && daemon.cubes == old(daemon.cubes) + {forwarding[c]}
    {
      hide *;
      var h := LoadPrograms(xdp, true, hasEgress);
      Parts();
      NewIsUnused(h);
      label Loaded:
      c := network.AddCube(id, xdp, h.ingressIndex, h.egressIndex);
      label Added:
      forwarding := forwarding[c := h];
      network.StillValid@Added();
      ForwardingAdded@Loaded(c, h);
    }

    method CreateTransparentCube(name: string, service: string, xdp: bool, hasIngress: bool, hasEgress: bool)
      returns (t: Transparent)
      requires Valid() && |daemon.panels.free| >= 2
      modifies this`transparent, network.kernel
      modifies daemon, daemon.panels`free, daemon.panels.tc, daemon.panels.xdp
      ensures Valid() && fresh(t) && network.kernel.cubes == old(network.kernel.cubes) + {t} && t.xdp == xdp
      ensures (t.ingressIndex != 0 <==> hasIngress) && (t.egressIndex != 0 <==> hasEgress)
      ensures t in transparent && daemon.cubes == old(daemon.cubes) + {transparent[t]}
    {
      hide *;
      var h := LoadPrograms(xdp, hasIngress, hasEgress);
      Parts();
      NewIsUnused(h);
      label Loaded:
      t := network.AddTransparentCube(name, service, xdp, h.ingressIndex, h.egressIndex);
      label Added:
      transparent := transparent[t := h];
      network.StillValid@Added();
      TransparentAdded@Loaded(t, h);
    }

    /** Destroying a cube frees exactly its indexes. */
    method DestroyCube(c: Forwarding)
      requires Valid() && c in network.parents && forall r :: r in network.ports ==> r.parent != c
      modifies this`forwarding, network`parents, network.kernel`maps
      modifies daemon, daemon.cubes, daemon.panels`free, daemon.panels.tc, daemon.panels.xdp
      ensures Valid() && network.parents == old(network.parents) - {c}
      ensures daemon.cubes == old(daemon.cubes) - {old(forwarding[c])}
      ensures daemon.panels.free == old(daemon.panels.free) + c.Keys()
    {
      hide *;
      Parts();
      HandleOf(c);
      var h := forwarding[c];
      network.RemoveCube(c);
      label Removed:
      daemon.Destroy(h);
      forwarding := forwarding - {c};
      network.StillValid@Removed();
      StillMatched(h);
      Whole();
    }

    lemma HandleOf(c: Forwarding)
      requires Matched() && c in network.parents
      ensures c in forwarding && forwarding[c] in daemon.cubes && forwarding[c].Keys() == c.Keys()
      ensures forall d :: d in forwarding && d != c ==> forwarding[d] != forwarding[c]
      ensures forall t :: t in transparent ==> transparent[t] != forwarding[c]
      ensures forwarding.Keys == network.parents && transparent.Keys == network.kernel.cubes
    {
    }

    lemma TransparentHandleOf(t: Transparent)
      requires Matched() && t in network.kernel.cubes
      ensures t in transparent && transparent[t] in daemon.cubes && transparent[t].Keys() == t.Keys()
      ensures forall u :: u in transparent && u != t ==> transparent[u] != transparent[t]
      ensures forall c :: c in forwarding ==> forwarding[c] != transparent[t]
      ensures forwarding.Keys == network.parents && transparent.Keys == network.kernel.cubes
    {
    }

    lemma Whole()
      requires network.Valid() && daemon.Valid() && Matched()
      ensures Valid()
    {
    }

    method DestroyTransparentCube(t: Transparent)
      requires Valid() && t in network.kernel.cubes && network.Detached(t)
      modifies this`transparent, network.kernel`cubes, network.kernel`maps
      modifies daemon, daemon.cubes, daemon.panels`free, daemon.panels.tc, daemon.panels.xdp
      ensures Valid() && network.kernel.cubes == old(network.kernel.cubes) - {t}
      ensures daemon.cubes == old(daemon.cubes) - {old(transparent[t])}
      ensures daemon.panels.free == old(daemon.panels.free) + t.Keys()
    {
      hide *;
      Parts();
      TransparentHandleOf(t);
      var h := transparent[t];
      network.RemoveTransparentCube(t);
      label Removed:
      daemon.Destroy(h);
      transparent := transparent - {t};
      network.StillValid@Removed();
      StillMatched(h);
      Whole();
    }
  }
}
