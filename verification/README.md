# Polycube, modelled in Dafny

Polycube runs network functions ("cubes") as eBPF programs that call each other through
16-bit indexes. Its framework keeps many structures that are cached, linked or
duplicated, and each has to agree with something simpler: a list, a set, a sum, a table.
This project models those structures as the source writes them and proves that they do
agree, in every run of the operations that change them.

`dafny verify dfyconfig.toml` verifies the whole project.

## The parts

**Service chains** (`ServiceChain`, `TransparentCubes`, `Peers`, `AttachOrder`,
`Topology`, `ChainWalks`, `ChainListing`). A port or netdev owns an ordered list of
transparent cubes. Packets follow indexes that are compiled into programs, kept in the
forwarding table and in the egress tables. `ServiceChain` defines the walk over those
indexes and relates it to lists. `Peers` has the classes of ports and netdevs: each
relinks its own side fully and the peer's side incrementally, and the heap reasoning
shows that this leaves exactly the links of a full relinking on both sides. `Topology`
is the whole network of one daemon: its invariant `Valid` is kept by adding and removing
cubes, ports and netdevs, connecting, disconnecting, attaching and detaching. `ChainWalks` derives
from it what packets do in any such network: from port to port, from port to netdev and
back, at the TC and the XDP hook. `ChainListing` is the listing of a netdev's services.

**Bridge** (`BridgeTables`, `Bridge`, `BridgeFdb`). The control plane's objects (modes,
VLAN membership, STP instances with counters) and the datapath's tables are two views of
one configuration. The tables are shown to be the image of the objects after every
operation, the STP counters to be exact, the unicast fast path and the flooding slow path
to decide alike, the filtering database to hold only what was learned from admitted
frames, and a removed port to be forgotten under interleaved traffic.

**Packet arithmetic** (`MachineWords`, `Checksum`, `VlanTag`). Incremental checksums of
RFC 1624 and VLAN tags of IEEE 802.1Q, on packet buffers.

**Allocation and generated code** (`PatchPanel`, `CubeLifecycle`, `ShadowPorts`,
`ForwardingCode`). Program indexes shared by two panels and handed to the cubes of a
network, port ids of shadow cubes, and the generated switch in front of the forwarding
table.

**Protocols** (`MetadataRing`, `Saver`, `ServiceDiff`). The controller's metadata ring, the
thread that saves the configuration, and the Kubernetes load-balancer table maintained by
differences.

## Where the code differs from what one would expect

Each of these is kept as the code has it, with the exact condition under which it does
what is meant.

- `ExtIface::set_next_index` steps upwards from the last cube
  (`src/polycubed/src/extiface.cpp:138`). It leaves the list exactly when the last cube has
  no ingress program (`Peers.ScanForIngress`). Operations that relink a port whose peer is
  a netdev carry that condition as a precondition.
- `PeerIface::add_cube` tests the wrong variable when it looks for the other cube
  (`src/polycubed/src/peer_iface.cpp:49`): a missing cube is reported only when the list is
  empty. Its second search for an automatic position never succeeds
  (`AttachOrder.AutoPosition`).
- `TransparentCubeXDP::set_next` returns early when the XDP successor is unchanged and so
  can leave the TC copy of the program with another successor
  (`src/polycubed/src/transparent_cube_xdp.cpp:52-60`). `TransparentCubes.TransparentCube.SetNext`
  says exactly when, and `TransparentCubes.MoveInFront` gets there; every netdev's list is
  free of such copies.
- `ExtIface::get_service_chain` does not return for a netdev with an egress program at the
  XDP hook, or with a peer in the way (`ChainListing.ListingReturns`).
- `Port::port_index_` has no initial value; a port is linked from its first relinking on.
- `Stp::updatePortsState` writes a row for any port whose state changed, also for one that
  has left the VLAN (`BridgeTables.StatesKeepImage`, `BridgeTables.LeftPortComesBack`).
- The constructor of a bridge port that refuses a VLAN leaves its row in `ports`
  (`Bridge.Bridge.AddPort`).
- `Fdb::flushByPort` fails, inside a destructor, when the datapath ages out an entry of its
  snapshot first. In any schedule it can fail exactly when a frame that is admitted, learned
  and forwarded has a destination still to be removed whose entry is too old
  (`BridgeFdb.RemovalCanFail`, `BridgeFdb.OldEntryDisturbs`).
- `Fdb::getEntryList` stops with an error at the first entry whose port has gone
  (`BridgeFdb.Fdb.GetEntryList`).
- `pcn_update_csum` folds once (`Checksum.OneFoldIsEnough`), `pcn_get_vlan_id` tests for the
  wrong type (`VlanTag.IdIsFromTag`), and `pcn_vlan_push_tag` needs 28 bytes and leaves a
  shorter packet grown (`VlanTag.Packet.PushTag`).
- A port of a cube whose peer fails keeps its id for ever, and a shadow port whose twin
  fails is left alone (`ShadowPorts.Cube.AddPort`). Removing a twin by its own name fails
  after the twin has gone (`ShadowPorts.Cube.RemovePort`).
- The first egress program of an XDP cube cannot be added again
  (`PatchPanel.Cube.AddEgress`).
- `updateService` does not look at node ports. Its table is the right one exactly when the
  node ports it serves and those of the new version, with their backends, are the same set
  (`ServiceDiff.UpdateIsFresh`; `ServiceDiff.SwappedTables` is a failing input). A new port
  that asks for the node port a kept port had gets no node row, and then the table is never
  the right one (`ServiceDiff.TakenNodePort`). Deleting the service later leaves rows behind
  exactly when an old node port is not among the new ones (`ServiceDiff.DeletedAfterUpdate`).
- `addNodeServicePort` fails when the node row of the port exists without its VIP row, or is
  the VIP row itself (`ServiceDiff.K8switch.AddNodeServicePort`).
- `parseService` pairs addresses and ports of different endpoint subsets. With subsets that
  share no address it invents no backend exactly when every subset with an address has the
  matching ports of all others (`ServiceDiff.ParsedDisjoint`, `ServiceDiff.ParsedBackends`,
  `ServiceDiff.InventedBackend`).

## Model

| member | source | states |
|---|---|---|
| ServiceChain.WalkUp | src/polycubed/src/port.cpp:292-310 | walking an upward-linked list runs exactly its programs, in list order, and goes on from the tail |
| ServiceChain.WalkDown | src/polycubed/src/port.cpp:275-286 | walking a downward-linked list runs its programs from the last to the first and goes on from the base |
| ServiceChain.RetargetLast | src/polycubed/src/port.cpp:83-91 | giving a new successor to the last program alone yields the links that relinking the whole list would |
| ServiceChain.StepUp | src/polycubed/src/port.cpp:302-308 | linking one more program from the end keeps the links behind it, because indexes are unique |
| ServiceChain.StepDown | src/polycubed/src/port.cpp:279-284 | the same from the front |
| TransparentCubes.TransparentCube.SetNext | src/polycubed/src/transparent_cube.cpp:56-80 | the compiled successor becomes the requested one, no other cube's program changes, and the TC copy is current exactly unless an unchanged XDP successor hid a change |
| TransparentCubes.TransparentCube.SetEgressNext | src/polycubed/src/transparent_cube_xdp.cpp:62-72 | the XDP program and its TC copy get their own successors |
| TransparentCubes.MoveInFront | src/polycubed/src/transparent_cube_xdp.cpp:52-71 | a cube that moves from its XDP netdev to the port in front of it keeps a stale TC copy |
| TransparentCubes.TransparentCube.ReloadAll | src/polycubed/src/transparent_cube_xdp.cpp:126-167 | after reloading every compiled program, and the TC copy, agrees with the fields |
| TransparentCubes.ListsApart | src/polycubed/src/patchpanel.cpp:80-86 | lists without a common cube have no common program index |
| TransparentCubes.LinkDown | src/polycubed/src/port.cpp:275-284 | the loop links a list downwards to its base, returns its entry and touches no other program |
| TransparentCubes.LinkUp | src/polycubed/src/port.cpp:302-308 | the loop links a list upwards to its tail, returns its head and touches no other program |
| TransparentCubes.LinkEgressXdp | src/polycubed/src/extiface_xdp.cpp:103-122 | the egress list is linked at both hooks, ending in a redirect at XDP and in "pass" at TC |
| TransparentCubes.Retarget | src/polycubed/src/port.cpp:84-89 | incremental relinking leaves the list linked to the new tail |
| Peers.Cube.UpdateForwardingTable | src/polycubed/src/cube.cpp:288-307 | a non-zero next is stored, zero erases the entry |
| Peers.Cube.SetEgressNextNetdev | src/polycubed/src/cube_xdp.cpp:226-230 | TC gets "pass", XDP the interface index marked in bit 16 |
| Peers.Port.CalculateIndex | src/polycubed/src/port.cpp:57-67 | the entry is the last cube's ingress program, else the parent's; a linked port's cached index is the same hop |
| Peers.Port.SetNextIndex | src/polycubed/src/port.cpp:69-92 | for any index but 0 the egress list and forwarding entry become those linked to a peer with that index; 0 changes nothing |
| Peers.Port.UpdateParentFwdTable | src/polycubed/src/port.cpp:123-138 | the entry carries the next hop and the peer port's id, or this port's for a netdev |
| Peers.Port.SetParentEgressNext | src/polycubed/src/port_xdp.cpp:52-61 | the successor of the cube's egress program is set at both hooks, a netdev as "pass" and as a redirect |
| Peers.Port.UpdateIndexes | src/polycubed/src/port.cpp:272-311 | both directions of this port are linked, the cached index is its entry, and the peer's side leads to it |
| Peers.Port.ReplaceCubes | src/polycubed/src/peer_iface.cpp:93-95 | changing the list and relinking leaves the port and its peer settled |
| Peers.Port.SetPeerPort | src/polycubed/src/port.cpp:94-98 | makes a port the peer and links both sides towards it |
| Peers.Port.SetPeerIface | src/polycubed/src/port.cpp:94-98 | makes a netdev the peer and links both sides towards it |
| Peers.Port.ClearPeer | src/polycubed/src/port.cpp:94-98 | without a peer the port is settled and drops |
| Peers.ScanForIngress | src/polycubed/src/extiface.cpp:137-146 | the scan leaves the list exactly when the last cube has no ingress program, and otherwise finds the last cube |
| Peers.ExtIface.SetNext | src/polycubed/src/extiface.cpp:149-169 | the program on the interface gets the next index and the peer's port id |
| Peers.ExtIface.SetNextIndex | src/polycubed/src/extiface.cpp:134-147 | the ingress list becomes the one linked to a peer with that index |
| Peers.ExtIface.LinkExit | src/polycubed/src/extiface.cpp:227-234 | the egress program of the peer's cube, if any, comes before the egress list |
| Peers.ExtIface.Announce | src/polycubed/src/extiface_xdp.cpp:147-151 | an XDP netdev whose entry moved leaves its peer linked to the new entry |
| Peers.ExtIface.UpdateIndexes | src/polycubed/src/extiface_xdp.cpp:84-152 | ingress and egress of the netdev are linked at its hooks, its index is its egress entry, the peer leads there |
| Peers.ExtIface.ReplaceCubes | src/polycubed/src/peer_iface.cpp:93-95 | changing the list and relinking leaves the netdev and its peer settled |
| Peers.ExtIface.SetPeer | src/polycubed/src/extiface.cpp:123-127 | makes a port the peer and settles both |
| Peers.ConnectPorts | src/polycubed/src/port.cpp:313-316 | after connecting two ports each is fully linked to the other |
| Peers.ConnectIface | src/polycubed/src/port.cpp:313-316 | after connecting a port and a netdev each is fully linked to the other |
| Peers.UnconnectPorts | src/polycubed/src/port.cpp:318-321 | after disconnecting both ports are settled without a peer |
| Peers.UnconnectIface | src/polycubed/src/port.cpp:318-321 | after disconnecting port and netdev are settled without a peer |
| AttachOrder.AutoPosition | src/polycubed/src/peer_iface.cpp:54-82 | succeeds iff every attached service is comparable, and then lands between the services it belongs after and before |
| AttachOrder.AutoKeepsOrder | src/polycubed/src/peer_iface.cpp:153-183 | the automatic position keeps the preferred order |
| AttachOrder.OnlyNatAndDdosMitigator | src/polycubed/src/peer_iface.cpp:153-183 | the two services that have a preferred place, and which is the inner one |
| AttachOrder.FindPosition | src/polycubed/src/peer_iface.cpp:36-91 | the position for each kind of request, and exactly when it is refused |
| Topology.Network.Connect | src/polycubed/src/port.cpp:313-316 | connecting two ports keeps every chain of the network linked |
| Topology.Network.ConnectNetdev | src/polycubed/src/port.cpp:313-316 | connecting a port to a netdev keeps every chain linked |
| Topology.Network.Disconnect | src/polycubed/src/port.cpp:318-321 | disconnecting ports keeps every chain linked |
| Topology.Network.DisconnectNetdev | src/polycubed/src/port.cpp:318-321 | disconnecting a netdev keeps every chain linked |
| Topology.Network.AttachToPort | src/polycubed/src/peer_iface.cpp:36-96 | the cube is inserted exactly at the place asked for and every chain stays linked; refused exactly when there is no such place, and then nothing changes |
| Topology.Network.DetachFromPort | src/polycubed/src/peer_iface.cpp:98-113 | the first cube of that name is removed and every chain stays linked; an error iff there is none |
| Topology.Network.AttachToIface | src/polycubed/src/peer_iface.cpp:36-96 | the same for a netdev |
| Topology.Network.DetachFromIface | src/polycubed/src/peer_iface.cpp:98-113 | the same for a netdev |
| Topology.Network.AddCube | src/polycubed/src/base_cube.cpp:82-91 | a cube with unused indexes disturbs no chain |
| Topology.Network.AddTransparentCube | src/polycubed/src/transparent_cube.cpp:31-41 | a transparent cube with unused indexes disturbs no chain |
| Topology.Network.AddPort | src/polycubed/src/cube.cpp:128-143 | a new port disturbs no chain |
| Topology.Network.AddNetdev | src/polycubed/src/extiface.cpp:36-50 | a new netdev disturbs no chain and is settled |
| Topology.Network.RemovePort | src/polycubed/src/cube.cpp:230-236 | removing a disconnected port disturbs no chain |
| Topology.Network.RemoveNetdev | src/polycubed/src/extiface.cpp:57-62 | removing a netdev without a peer disturbs no chain |
| Topology.Network.RemoveCube | src/polycubed/src/base_cube.cpp:93-111 | destroying a cube without ports disturbs no chain and leaves its indexes unused |
| Topology.Network.RemoveTransparentCube | src/polycubed/src/transparent_cube.cpp:45-50 | destroying a detached transparent cube disturbs no chain and leaves its indexes unused |
| ChainWalks.PortToPort | src/polycubed/src/port.cpp:272-321 | in any network a packet from p to its peer q runs p's egress cubes 0..N-1, q's ingress cubes N-1..0 and q's cube, which sees q's id |
| ChainWalks.Unpeered | src/polycubed/src/port.cpp:295-310 | a port without a peer runs its egress cubes and drops |
| ChainWalks.EntryWalk | src/polycubed/src/port.cpp:275-286 | entering a port runs its ingress cubes N-1..0 and then its cube |
| ChainWalks.PortToTcNetdev | src/polycubed/src/port.cpp:295-310 | from a port to a TC netdev: the port's egress cubes, then a redirect to the netdev |
| ChainWalks.PortToXdpNetdev | src/polycubed/src/extiface_xdp.cpp:100-152 | from a port to an XDP netdev: the port's egress cubes, the netdev's egress chain, then a redirect to the netdev |
| ChainWalks.NetdevEgress | src/polycubed/src/extiface.cpp:216-234 | at the TC egress hook the same chain runs (peer's egress program, cubes N-1..0) and the packet passes |
| ChainWalks.ExitWalk | src/polycubed/src/extiface_xdp.cpp:100-145 | the TC and the XDP egress walk visit the same programs in the same order and end in "pass" and in a redirect |
| ChainWalks.TailToNetdev | src/polycubed/src/port.cpp:295-301 | a port's egress tail is the index of its netdev |
| ChainWalks.NetdevIngress | src/polycubed/src/extiface.cpp:203-214 | into a netdev: its cubes 0..N-1, then the peer's ingress side and cube, or the stack |
| ChainListing.GetServiceChain | src/polycubed/src/extiface.cpp:179-198 | the loop ends and gives the names of the cubes in walking order, then "stack" |
| ChainListing.ListingReturns | src/polycubed/src/extiface.cpp:179-198 | the listing returns iff no peer is in its way and no XDP egress program is attached; and what |
| ChainListing.UpwardSorted | src/polycubed/src/extiface.cpp:203-212 | the ingress listing has every cube with a program once, in list order |
| ChainListing.DownwardSorted | src/polycubed/src/extiface.cpp:219-225 | the egress listing has every cube with a program once, last first |
| BridgeTables.SameDecision | src/services/pcn-bridge/src/Ports.cpp:296-332 | fast and slow path make the same send, push and pop decision when tables agree and STP is synced |
| BridgeTables.AdmittedIsMember | src/services/pcn-bridge/src/Bridge_dp.c:175-219 | a frame is admitted exactly into VLANs its port is a member of, by mode and tag: into the VLAN of its tag, the native or the access VLAN, with the state of that row |
| BridgeTables.LeavesMembersOnly | src/services/pcn-bridge/src/Bridge_dp.c:291-357 | a frame leaves exactly members that forward, and leaves with exactly one tag on a trunk whose native VLAN is another one and with none elsewhere; a tag is pushed only on an untagged frame |
| BridgeTables.FloodedRight | src/services/pcn-bridge/src/Ports.cpp:296-358 | the same for the flooding decision |
| BridgeTables.StatesKeepImage | src/services/pcn-bridge/src/Stp.cpp:256-293 | copying changed STP states keeps the tables the image iff every changed port is a member of the VLAN |
| BridgeTables.StateRows | src/services/pcn-bridge/src/Stp.cpp:253-292 | after the copy loop each changed port's row holds the state of its last change, and every other row is as before |
| BridgeTables.StatesKeepSynced | src/services/pcn-bridge/src/Stp.cpp:253-292 | if all changed ports are members, tables that agree with the instances agree with the changed instances |
| BridgeTables.NewRowsBlock | src/services/pcn-bridge/src/PortsTrunk.cpp:88-103 | rows that a port gets as blocking keep the agreement with instances that start it as blocking |
| BridgeTables.LeftPortComesBack | src/services/pcn-bridge/src/Stp.cpp:271-291 | a port that left a VLAN is let in again by such a copy |
| BridgeTables.AcquireKeeps | src/services/pcn-bridge/src/PortsStp.cpp:35-36 | taking an instance keeps counters equal to the number of holders |
| BridgeTables.ReleaseKeeps | src/services/pcn-bridge/src/Stp.cpp:114-121 | giving an instance back keeps counters exact and removes it with its last holder |
| Bridge.Port.InsertStp | src/services/pcn-bridge/src/Ports.cpp:210-223 | joins an instance iff STP is on and the port is not in it; counters stay exact |
| Bridge.Port.RemoveStp | src/services/pcn-bridge/src/Ports.cpp:232-245 | leaves an instance iff STP is on and the port is in it; counters stay exact |
| Bridge.Bridge.RemoveStp | src/services/pcn-bridge/src/Bridge.cpp:310-320 | an instance is only ever removed while STP is on and it exists |
| Bridge.Port.SetVlanid | src/services/pcn-bridge/src/PortsAccess.cpp:53-93 | the VLAN, its row and the STP membership change together, or the VLAN is invalid |
| Bridge.Port.AddAllowed | src/services/pcn-bridge/src/PortsTrunk.cpp:64-102 | an allowed VLAN, its row and its STP membership appear together |
| Bridge.Port.DelAllowed | src/services/pcn-bridge/src/PortsTrunk.cpp:114-139 | they disappear together |
| Bridge.Port.SetMode | src/services/pcn-bridge/src/Ports.cpp:82-111 | the port ends up settled in the new mode, with VLAN 1 |
| Bridge.Port.InsertTrunk | src/services/pcn-bridge/src/PortsTrunk.cpp:20-35 | the trunk part is built with VLAN 1 added, or refused |
| Bridge.Port.SendPacketOut | src/services/pcn-bridge/src/Ports.cpp:296-358 | the port's branches compute the flooding decision: sent exactly by members that forward, with exactly the tag their membership asks for |
| Bridge.Bridge.SetMode | src/services/pcn-bridge/src/Ports.cpp:82-111 | changing a mode keeps tables, objects and STP counters in step; the port's new rows are blocking and no other port's rows change |
| Bridge.Bridge.SetVlanid | src/services/pcn-bridge/src/PortsAccess.cpp:53-93 | changing an access VLAN keeps them in step; refused exactly in trunk mode or for an invalid VLAN |
| Bridge.Bridge.AddAllowed | src/services/pcn-bridge/src/PortsTrunk.cpp:64-102 | allowing a VLAN keeps them in step; refused exactly when allowed already, invalid or in access mode |
| Bridge.Bridge.DelAllowed | src/services/pcn-bridge/src/PortsTrunk.cpp:114-139 | removing a VLAN keeps them in step |
| Bridge.Bridge.SetNativeVlanEnabled | src/services/pcn-bridge/src/PortsTrunk.cpp:158-174 | the native flag keeps them in step |
| Bridge.Bridge.SetNativeVlan | src/services/pcn-bridge/src/PortsTrunk.cpp:183-208 | the native VLAN keeps them in step |
| Bridge.Bridge.AddPort | src/services/pcn-bridge/src/Ports.cpp:20-54 | a new port keeps them in step iff its VLANs are acceptable, with blocking rows; otherwise a stale row remains |
| Bridge.Bridge.RemovePort | src/services/pcn-bridge/src/Ports.cpp:56-66 | a removed port leaves no row, key or STP instance |
| Bridge.Bridge.SetStpEnabled | src/services/pcn-bridge/src/Bridge.cpp:205-217 | turning STP on or off keeps the invariant; off releases before the flag changes |
| Bridge.Bridge.StpConserved | src/services/pcn-bridge/src/Bridge.cpp:244-255 | with STP on an instance exists iff some port has its VLAN and counts its holders; with STP off there is none |
| Bridge.Bridge.UpdatePortsState | src/services/pcn-bridge/src/Stp.cpp:256-293 | the copy loop stores each port's last state and nothing else; it keeps the invariant iff every changed port is a member, and then the agreement with the instances |
| Bridge.Bridge.InstanceExists | src/services/pcn-bridge/src/Ports.cpp:298-301 | a frame admitted while STP is on finds the instance of its VLAN |
| Bridge.Bridge.BroadcastPacket | src/services/pcn-bridge/src/Bridge.cpp:111-127 | flooding sends to exactly the other members that forward, as the datapath would, with exactly the tag their membership asks for |
| BridgeFdb.Fdb.HandleRx | src/services/pcn-bridge/src/Bridge_dp.c:149-370 | the program's branches compute admission, learning, ageing and routing as specified |
| BridgeFdb.NeverLeaks | src/services/pcn-bridge/src/Bridge_dp.c:291-357 | a frame leaves, on either path, only through other ports that are members of its VLAN and forward |
| BridgeFdb.FloodReachesAll | src/services/pcn-bridge/src/Bridge.cpp:111-127 | a flooded frame leaves through every other port the fast path would send it to |
| BridgeFdb.EveryEntryWasLearned | src/services/pcn-bridge/src/Bridge_dp.c:243-256 | in every run each dynamic entry was learned from a frame with that source admitted into that VLAN on that port |
| BridgeFdb.FrameChanges | src/services/pcn-bridge/src/Bridge_dp.c:252-289 | what one frame can do to one entry |
| BridgeFdb.WhenLearned | src/services/pcn-bridge/src/Bridge_dp.c:219-241 | exactly which frames are learned: admitted ones, and with STP no protocol frames and only in three states |
| BridgeFdb.SourceIsLearned | src/services/pcn-bridge/src/Bridge_dp.c:219-256 | a frame admitted for learning has its source entered with its port and time, unless a static entry or a full table prevents it; any other frame changes nothing |
| BridgeFdb.DestinationDecides | src/services/pcn-bridge/src/Bridge_dp.c:267-345 | a frame to an unknown or too old destination is flooded; otherwise it leaves through the entry's port, in its VLAN, exactly when the datapath sends to that port, and the entry is stamped anew |
| BridgeFdb.OtherFrames | src/services/pcn-bridge/src/Bridge_dp.c:219-289 | protocol frames go to the instance of their VLAN, frames to their own source stay, all others are dropped |
| BridgeFdb.AgesByElapsed | src/services/pcn-bridge/src/Bridge_dp.c:282-284 | an entry is too old exactly when it is dynamic and more than the limit has elapsed, also across a wrap of the clock |
| BridgeFdb.StaticEntriesStay | src/services/pcn-bridge/src/Fdb.cpp:228-254 | frames and ageing neither change nor make static entries |
| BridgeFdb.Fdb.AddEntry | src/services/pcn-bridge/src/Fdb.cpp:109-157 | a static entry is written iff VLAN and port are valid and the table has its key or room for it |
| BridgeFdb.Fdb.FlushByPort | src/services/pcn-bridge/src/Fdb.cpp:211-226 | undisturbed, exactly the entries of the port go |
| BridgeFdb.Fdb.FlushOldEntries | src/services/pcn-bridge/src/Fdb.cpp:228-254 | exactly the old dynamic entries of the VLAN go |
| BridgeFdb.Fdb.GetEntryList | src/services/pcn-bridge/src/Fdb.cpp:79-107 | the aged dynamic entries it reaches go; it lists all others, or fails iff one of them has a port that is not there |
| BridgeFdb.RemovedPortIsForgotten | src/services/pcn-bridge/src/Ports.cpp:56-72 | when the destructor finishes no entry names the port, whatever traffic ran in between |
| BridgeFdb.FrameKeepsEntries | src/services/pcn-bridge/src/Bridge_dp.c:272-289 | a frame removes one of a set of entries iff it is admitted, learned and forwarded and its destination is one that is too old |
| BridgeFdb.RemovalCanFail | src/services/pcn-bridge/src/Fdb.cpp:211-226 | in every schedule that respects the mutex, the flush of a destructor can fail iff some frame ages out an entry still to be removed; otherwise every such entry is there |
| BridgeFdb.OldEntryDisturbs | src/services/pcn-bridge/src/Bridge_dp.c:282-289 | two access ports, an entry older than the ageing time and one frame with which it can fail |
| Checksum.TwoFoldsSuffice | src/polycubed/src/cube_xdp.cpp:705-710 | two folds of any 32-bit sum leave 16 bits, the same number modulo 65535 |
| Checksum.CsumAddAdds | src/polycubed/src/cube_xdp.cpp:712-716 | end-around addition is addition modulo 65535, zero only for zeros |
| Checksum.Csum16AddAdds | src/polycubed/src/cube_xdp.cpp:718-723 | the same on 16 bits |
| Checksum.Replace2Adjusts | src/polycubed/src/cube_xdp.cpp:756-758 | new checksum = old + old field - new field modulo 65535, for 16-bit fields |
| Checksum.Replace4Adjusts | src/polycubed/src/cube_xdp.cpp:759-761 | the same for 32-bit fields |
| Checksum.PathsAgree | src/polycubed/src/cube_xdp.cpp:752-761 | the 2- and 4-byte paths agree on 16-bit fields |
| Checksum.DiffThenReplace | src/polycubed/src/cube_xdp.cpp:818-835 | a precomputed difference has the same effect |
| Checksum.StaysValid2 | src/polycubed/src/cube_xdp.cpp:733-766 | valid data stay valid when a 16-bit field and the checksum are updated, unless only zeros are left |
| Checksum.StaysValid4 | src/polycubed/src/cube_xdp.cpp:733-766 | the same for a 32-bit field |
| Checksum.MangledZero | src/polycubed/src/cube_xdp.cpp:791-813 | with the mangled-zero flag a non-zero or enforced checksum never becomes 0 and is adjusted correctly |
| Checksum.MangledStaysValid2 | src/polycubed/src/cube_xdp.cpp:768-816 | with the mangled-zero flag and a non-zero or enforced checksum, valid data stay valid under any update of a 16-bit field |
| Checksum.MangledStaysValid4 | src/polycubed/src/cube_xdp.cpp:768-816 | the same for a 32-bit field |
| Checksum.PacketStaysValid2 | src/polycubed/src/cube_xdp.cpp:733-766 | any even-aligned byte range of a packet with a valid checksum: after a 16-bit field is written and the checksum replaced it is valid, unless only zeros are left |
| Checksum.PacketStaysValid4 | src/polycubed/src/cube_xdp.cpp:733-766 | the same for a 32-bit field |
| Checksum.MangledPacketStaysValid2 | src/polycubed/src/cube_xdp.cpp:768-816 | the same for a 16-bit field and a transport checksum with mangled zeros, with no exception |
| Checksum.MangledPacketStaysValid4 | src/polycubed/src/cube_xdp.cpp:768-816 | the same for a 32-bit field |
| Checksum.DiffStaysValid | src/polycubed/src/cube_xdp.cpp:753-755 | data changed anywhere stay valid when the checksum is replaced by their difference, unless only zeros are left |
| Checksum.MangledDiffStaysValid | src/polycubed/src/cube_xdp.cpp:794-813 | the same with mangled zeros, with no exception |
| Checksum.PacketStaysValidByDiff | src/polycubed/src/cube_xdp.cpp:733-766 | a byte range of a packet stays valid when a 32-bit field is written and the checksum replaced by a difference computed beforehand |
| Checksum.MangledPacketStaysValidByDiff | src/polycubed/src/cube_xdp.cpp:768-816 | the same for a transport checksum with mangled zeros, with no exception |
| Checksum.CheckCodes | src/polycubed/src/cube_xdp.cpp:738-750 | what each error code means, and exactly when there is none |
| Checksum.ByteOrderDoesNotMatter | src/polycubed/src/cube_xdp.cpp:718-723 | checksum addition commutes with swapping the bytes of each word |
| Checksum.L3CsumReplace | src/polycubed/src/cube_xdp.cpp:733-766 | error codes, and the one word of the packet that changes |
| Checksum.L4CsumReplace | src/polycubed/src/cube_xdp.cpp:768-816 | the exact error code, and the one word of the packet that changes |
| Checksum.UpdateCsum | src/polycubed/src/cube_xdp.cpp:689-702 | the loop stores the once-folded sum of all words |
| Checksum.OneFoldIsEnough | src/polycubed/src/cube_xdp.cpp:697-701 | one fold is right iff it leaves no second carry |
| Checksum.SecondCarryExists | src/polycubed/src/cube_xdp.cpp:697-701 | an IPv4 header for which one fold is wrong |
| VlanTag.PopAfterPush | src/polycubed/src/cube_xdp.cpp:580-687 | popping a pushed tag restores the packet byte for byte |
| VlanTag.PushAfterPop | src/polycubed/src/cube_xdp.cpp:580-687 | pushing a popped tag restores the tagged packet |
| VlanTag.TagFields | src/polycubed/src/cube_xdp.cpp:679-684 | the fields of a pushed tag, and no other byte changes |
| VlanTag.IdAfterPush | src/polycubed/src/cube_xdp.cpp:523-550 | the id of a pushed 0x8100 tag is the number modulo 4096; none for 0x88A8 |
| VlanTag.IdIsFromTag | src/polycubed/src/cube_xdp.cpp:536-538 | when the id read really is one |
| VlanTag.Packet.PopTag | src/polycubed/src/cube_xdp.cpp:580-634 | the in-place pop yields the packet without its tag, or the error codes |
| VlanTag.Packet.PushTag | src/polycubed/src/cube_xdp.cpp:636-687 | the in-place push succeeds iff there are 28 bytes and headroom, and yields the packet with a tag of one of the two types, holding the VLAN and the old type |
| VlanTag.Packet.GetVlanId | src/polycubed/src/cube_xdp.cpp:523-550 | the id as read, or -1 |
| VlanTag.Packet.IsVlanPresent | src/polycubed/src/cube_xdp.cpp:501-521 | whether the packet carries a tag of either type |
| PatchPanel.Panels.Add | src/polycubed/src/patchpanel.cpp:80-86 | the smallest free index is taken; an index is free iff present in neither panel |
| PatchPanel.Panels.AddAt | src/polycubed/src/patchpanel.cpp:88-97 | a given index is taken unless present in this panel |
| PatchPanel.Panels.Remove | src/polycubed/src/patchpanel.cpp:99-104 | an index is freed at both hooks |
| PatchPanel.Cube.AddIngress | src/polycubed/src/base_cube.cpp:257-313 | where a program goes, or the error; the first one takes an index |
| PatchPanel.PlaceLaw | src/polycubed/src/base_cube.cpp:265-284 | the position asked for or the first empty one, and exactly when each error occurs |
| PatchPanel.Cube.AddEgress | src/polycubed/src/cube_xdp.cpp:161-184 | an XDP egress program has one index in both panels; adding the first again is refused |
| PatchPanel.Cube.DelProgram | src/polycubed/src/base_cube.cpp:334-354 | a loaded program is deleted, anything else is an error; indexes are kept |
| PatchPanel.Cube.Uninit | src/polycubed/src/base_cube.cpp:93-111 | exactly the cube's indexes are freed |
| PatchPanel.Daemon.NewCube | src/polycubed/src/base_cube.cpp:52-64 | a new cube owns no index yet |
| PatchPanel.Daemon.AddProgram | src/polycubed/src/base_cube.cpp:257-313 | where the program goes, or the error, and every index that is not free keeps exactly one owner |
| PatchPanel.Daemon.Destroy | src/polycubed/src/base_cube.cpp:93-111 | destroying a cube frees exactly its indexes |
| PatchPanel.Daemon.NoSharing | src/polycubed/src/patchpanel.cpp:80-104 | live cubes never share an index, and 0 is never one |
| CubeLifecycle.Host.FreeIsUnused | src/polycubed/src/patchpanel.cpp:80-86 | no program of the network has an index that the panel has free |
| CubeLifecycle.Host.NewIsUnused | src/polycubed/src/patchpanel.cpp:80-97 | the indexes that the panel hands to a new cube are unused in the network |
| CubeLifecycle.Host.CreateCube | src/polycubed/src/base_cube.cpp:82-91 | creating a forwarding cube under indexes from the panel keeps all chains linked and both views of the indexes equal |
| CubeLifecycle.Host.CreateTransparentCube | src/polycubed/src/base_cube.cpp:82-91 | the same for a transparent cube, with or without programs of each direction |
| CubeLifecycle.Host.DestroyCube | src/polycubed/src/base_cube.cpp:93-111 | destroying a forwarding cube disturbs no chain and frees exactly its indexes |
| CubeLifecycle.Host.DestroyTransparentCube | src/polycubed/src/transparent_cube.cpp:45-50 | the same for a detached transparent cube |
| ShadowPorts.Cube.AllocatePortId | src/polycubed/src/cube.cpp:105-113 | the smallest free id |
| ShadowPorts.Cube.AddPort | src/polycubed/src/cube.cpp:119-217 | ids stay partitioned and paired iff nothing fails after an id was taken; the second allocation never fails |
| ShadowPorts.Cube.RemovePort | src/polycubed/src/cube.cpp:219-263 | a port and its twin go together; ids stay partitioned and paired iff it is not a twin that is named |
| ShadowPorts.Cube.TwinIsNext | src/polycubed/src/cube_tc.cpp:384-390 | a user port has an even id and its twin the next one |
| ForwardingCode.GetRedirectCode | src/polycubed/src/cube_tc.cpp:62-87 | cases for the smallest 17 ports, in order |
| ForwardingCode.SwitchIsLookup | src/polycubed/src/cube_tc.cpp:339-360 | the switch with its fallback does what table lookup alone does, at both hooks |
| ForwardingCode.DirectsForwards | src/polycubed/src/cube_tc.cpp:345-357 | the entry that a port writes into the peers table makes packets go to that netdev, or to that program with that port id |
| ForwardingCode.Forwarding.UpdateForwardingTable | src/polycubed/src/cube.cpp:288-312 | chain, table and code stay in step; the code has cases for the first ports |
| ForwardingCode.Forwarding.ForwardsByTable | src/polycubed/src/cube_xdp.cpp:450-473 | after any updates forwarding is table lookup |
| ForwardingCode.Forwarding.UnpeeredDrops | src/polycubed/src/patchpanel.cpp:64-70 | a port without an entry, or with one that names index 0, drops |
| ForwardingCode.BeforeReload | src/polycubed/src/cube.cpp:294-295 | until the code is reloaded an optimized port uses its old peer, any other the new one |
| MetadataRing.Ring.SendPacketToCube | src/polycubed/src/controller.cpp:343-373 | each slot holds the metadata of the last packet that used it |
| MetadataRing.Ring.ModuleRx | src/polycubed/src/controller.cpp:76-104 | the k-th packet meets its own metadata if at most MD_MAP_SIZE packets are outstanding, else those of the latest packet in its slot |
| MetadataRing.OneTooMany | src/polycubed/src/controller.cpp:343-373 | with one packet more the oldest meets the newest's metadata |
| Saver.NoCountedUpdateIsLost | src/polycubed/src/cubes_dump.cpp:464-494 | in every run, when the thread blocks or exits with nothing pending after a counted update, the file is the configuration |
| Saver.ExitSaves | src/polycubed/src/cubes_dump.cpp:474-476 | in every run the step that exits leaves a counted update saved and nothing pending |
| Saver.TwoRoundsSave | src/polycubed/src/cubes_dump.cpp:464-494 | in every run, from wherever the thread is, two rounds of its steps save the last counted update |
| Saver.ThreeRoundsEnd | src/polycubed/src/cubes_dump.cpp:464-494 | once told to end, it exits within three rounds, with a counted update saved |
| Saver.UncountedUpdateCanBeLost | src/polycubed/src/cubes_dump.cpp:85-92 | an update made before dumping was enabled can stay unsaved |
| ServiceDiff.K8switch.AddNodeServicePort | src/components/k8s/pcn_k8s/k8switch_ctrl.go:46-84 | over any table: the rows of a port are replaced or created and no other changes; an error iff the node row is there without the VIP row or is the VIP row |
| ServiceDiff.K8switch.DelNodeServicePort | src/components/k8s/pcn_k8s/k8switch_ctrl.go:86-105 | the rows of a port go, all or, without a VIP row, none; an error iff one is missing |
| ServiceDiff.K8switch.AddNodeService | src/components/k8s/pcn_k8s/k8switch_ctrl.go:25-33 | in any order of ports and over any table, the service's rows are written over it iff each port can be added |
| ServiceDiff.OlderReplaced | src/components/k8s/pcn_k8s/k8switch_ctrl.go:57-62 | over the rows of an earlier version with the same keys, and foreign ones, the table becomes the foreign rows and the new ones |
| ServiceDiff.K8switch.DelNodeService | src/components/k8s/pcn_k8s/k8switch_ctrl.go:35-44 | in any order of ports, exactly the rows of the ports whose VIP row exists go |
| ServiceDiff.K8switch.UpdateBackends | src/components/k8s/pcn_k8s/service.go:209-230 | the rows of a kept port get exactly the new backends |
| ServiceDiff.K8switch.UpdateService | src/components/k8s/pcn_k8s/service.go:175-233 | the table becomes the foreign rows and the new service's, with old node ports for kept ports and only the VIP row for a new port whose node port a kept one had |
| ServiceDiff.UpdateIsFresh | src/components/k8s/pcn_k8s/service.go:175-233 | the updated table is the one a fresh add would give iff, as far as node ports are served, the ports served and the new version's name the same node ports with the same backends; never if a new port's node row is refused |
| ServiceDiff.SwappedNodePorts | src/components/k8s/pcn_k8s/service.go:208-230 | two kept ports that exchange node ports meet that condition only with equal backends |
| ServiceDiff.SwappedTables | src/components/k8s/pcn_k8s/service.go:208-230 | for that input the two tables are equal iff the backends are |
| ServiceDiff.TakenNodePort | src/components/k8s/pcn_k8s/service.go:199-205 | a new port that takes the node port a kept port gives up clashes |
| ServiceDiff.DeletedAfterUpdate | src/components/k8s/pcn_k8s/service.go:164-172 | deleting the service after an update leaves only foreign rows iff every node port still served is one of the new version's |
| ServiceDiff.ParseBackends | src/components/k8s/pcn_k8s/service.go:103-128 | every address is paired with every port of the service port's name, or with every port if it has none |
| ServiceDiff.ParsedBackends | src/components/k8s/pcn_k8s/service.go:108-128 | no real backend is missed; none is invented iff every address serves the matching ports of all subsets |
| ServiceDiff.ParsedDisjoint | src/components/k8s/pcn_k8s/service.go:108-128 | for subsets without a common address: none is invented iff each subset with an address has the matching ports of all others |
| ServiceDiff.InventedBackend | src/components/k8s/pcn_k8s/service.go:123-128 | subsets with different ports give a backend that does not exist |

## Left out

- eBPF compilation, loading and attaching, netlink, namespaces and veth devices: only the table contents a successful call leaves are modelled; a program is its compiled successor.
- The peer handshake above `Port::connect` and `Port::unconnect` (`ServiceController`): peers are of one hook and a port is never connected to itself.
- A port or netdev whose peer is a netdev on the other side: a netdev's peer is a port.
- Destruction in one step: a port, netdev or cube is disconnected, detached or emptied first and then removed, in the order in which the destructors do it.
- The 16-bit truncation of interface indexes: an interface index lies strictly between 0 and 0xffff.
- The fields `ingress_next_`, `egress_next_` and `egress_next_tc_` of a transparent cube are held in one record; `next | id << 16` is written as a sum.
- Topology.Network.AttachToPort: requires that a peer netdev's last cube has an ingress program, because the code reads outside its list otherwise.
- Topology.Network.DetachFromPort: requires the same, for the same reason.
- Topology.Network.ConnectNetdev: requires the same, for the same reason.
- Topology.Network.AttachToIface: requires a cube of the netdev's hook; attaching to a netdev that exists already does not check it.
- AttachOrder.FindPosition: requires that "before" and "after" name a cube, and "after" an attached one, because the code uses an uninitialised or out-of-range position otherwise.
- The kernel's own limit on consecutive tail calls: a walk may have any length.
- `native_vlan_enabled_` and `native_vlan_` of a trunk are not initialised in the source; they start as true and 1, the values its port's constructor writes to the table. `list_of_pending_changes_` likewise starts at 0.
- The parts of a bridge port (`PortsAccess`, `PortsTrunk`, `PortsStp`) are fields of the port, and an STP instance is its counter: sharing of these objects is not modelled.
- The capacity of the tables `port_vlan` and `ports`, the STP protocol itself, timers, per-port STP settings in a port's configuration, and the code reload when STP changes.
- Bridge.Bridge.UpdatePortsState: the changed ports, their states and the states of the instances are parameters, because the STP library is not part of this model; that the tables agree with the instances when STP is turned on is assumed.
- BridgeFdb.Fdb.FlushByPort: reads all entries at once; entries learned while the kernel iterates over the table are not modelled.
- BridgeFdb.RemovedPortIsForgotten: no static entry is added for the port while it is being removed, which needs the port's row.
- `Fdb::delEntry` locks its own mutex twice; `Fdb::delEntryList` removes everything.
- Checksum.UpdateCsum: says nothing about a header whose checksum field was not cleared beforehand.
- Double-tagged packets, and the metadata area in front of a packet: the code handles neither.
- PatchPanel.Panels.Add: requires a free index, because the code takes the first of an empty set otherwise.
- PatchPanel.Cube.AddEgress: compilation succeeds; a failing one leaves its slot occupied. The table entries that remain after an index is removed at the other hook are not modelled.
- Programs that a cube gets after it was created: the indexes of a cube of the network never change, and every forwarding cube has an ingress program.
- CubeLifecycle.Host.CreateCube: requires two free indexes, because the code takes the first of an empty set otherwise.
- CubeLifecycle.Host.CreateTransparentCube: requires the same, for the same reason.
- Concurrent senders of the metadata ring, and failed sends: packets are received in the order they are sent.
- The JSON editing of saved configurations, the file format, a file that cannot be opened, and whether a shutdown notification sent without the lock arrives.
- ServiceDiff.K8switch.UpdateService: requires an unchanged address, type, policy and name, a table that holds the earlier version's rows, rows that are distinct within each version and from other services, and API calls that fail only on missing or existing rows.
- REST server, command line, metrics and help output.
