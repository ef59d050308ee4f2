/** The forwarding code that is generated for a cube: a switch over its first ports and
    a table lookup for the others. */
module ForwardingCode {
  import opened PatchPanel
  import opened TransparentCubes
  import Peers
  import ServiceChain

  const MAX_OPTIMIZED_PORTS := 17

  datatype Hook = TC | XDP

  /** Peers by port: the low half of `info` is an interface or program index, the high
      half a port id. */
  type Table = map<nat, PeerInfo>

  /** One generated case: store the port id, then redirect or jump. */
  datatype Case = Case(port: nat, store: nat, target: nat, netdev: bool)

  datatype Outcome =
    | Redirected(ifindex: nat, mark: nat)      // the mark is kept only at the TC hook
    | Called(index: nat, inPort: nat)
    | Dropped

  /** Jumping to a program; it returns only if there is none. */
  function Jump(nodes: set<nat>, index: nat, inPort: nat, otherwise: Outcome): Outcome {
    if index in nodes then Called(index, inPort) else otherwise
  }

  function Redirect(hook: Hook, ifindex: nat, mark: nat): Outcome {
    Redirected(ifindex, if hook == TC then mark else 0)
  }

  /** The table lookup. */
  function Lookup(hook: Hook, table: Table, nodes: set<nat>, out: nat): Outcome {
    if out !in table then Dropped
    else if table[out].netdev then Redirect(hook, table[out].info % PORT_SHIFT, table[out].info)
    else Jump(nodes, table[out].info % PORT_SHIFT, table[out].info / PORT_SHIFT, Dropped)
  }

  /** Running the switch.  A case whose jump fails breaks out and falls back. */
  function Switch(hook: Hook, cases: seq<Case>, table: Table, nodes: set<nat>, out: nat): Outcome {
    if cases == [] then Lookup(hook, table, nodes, out)
    else if cases[0].port != out then Switch(hook, cases[1..], table, nodes, out)
    else
      var c := cases[0];
      if c.netdev then Redirect(hook, c.target, c.store)
      else Jump(nodes, c.target, if hook == TC then c.store / PORT_SHIFT else c.store, Lookup(hook, table, nodes, out))
  }

  function Generate(hook: Hook, port: nat, p: PeerInfo): Case {
    Case(port, if hook == TC || p.netdev then p.info else p.info / PORT_SHIFT, p.info % PORT_SHIFT, p.netdev)
  }

  /** The cases are those of some ports of the chain. */
  ghost predicate GeneratedFrom(hook: Hook, cases: seq<Case>, chain: Table) {
    forall i :: 0 <= i < |cases| ==>
        cases[i].port in chain && cases[i] == Generate(hook, cases[i].port, chain[cases[i].port])
  }

  /** The switch has a case for a port. */
  predicate HasCase(cases: seq<Case>, port: nat) {
    cases != [] && (cases[|cases|-1].port == port || HasCase(cases[..|cases|-1], port))
  }

  /** The cases are those of the smallest ports, up to the limit, in ascending order. */
  ghost predicate FirstPorts(cases: seq<Case>, chain: Table) {
    && |cases| == (if |chain| < MAX_OPTIMIZED_PORTS then |chain| else MAX_OPTIMIZED_PORTS)
    && (forall i, j :: 0 <= i < j < |cases| ==> cases[i].port < cases[j].port)
    && (forall i, p :: 0 <= i < |cases| && p in chain && !HasCase(cases, p) ==> cases[i].port < p)
  }

  /** Cases for the smallest ports, in ascending order. */
  method GetRedirectCode(hook: Hook, chain: Table) returns (cases: seq<Case>)
    ensures GeneratedFrom(hook, cases, chain)
    ensures FirstPorts(cases, chain)
  {
    cases := [];
    var left, i := chain.Keys, 0;
    while left != {} && i < MAX_OPTIMIZED_PORTS
      invariant i == |cases| <= MAX_OPTIMIZED_PORTS && left <= chain.Keys && |left| == |chain.Keys| - i
      invariant GeneratedFrom(hook, cases, chain)
      invariant forall p :: p in chain && p !in left ==> HasCase(cases, p)
      invariant forall k, p :: 0 <= k < |cases| && p in left ==> cases[k].port < p
      invariant forall k, j :: 0 <= k < j < |cases| ==> cases[k].port < cases[j].port
      decreases left
    {
      var index := Least(left);
      ghost var before := cases;
      cases := cases + [Generate(hook, index, chain[index])];
      assert cases[..|cases|-1] == before;
      left := left - {index};
      i := i + 1;
    }
    assert |chain.Keys| == |chain|;
  }

  /** The generated code does what the table lookup alone would do, for every port. */
  lemma {:induction false} SwitchIsLookup(hook: Hook, cases: seq<Case>, table: Table, nodes: set<nat>, out: nat)
    requires GeneratedFrom(hook, cases, table)
    ensures Switch(hook, cases, table, nodes, out) == Lookup(hook, table, nodes, out)
  {
    if cases != [] {
      assert cases[0] == Generate(hook, cases[0].port, table[cases[0].port]);
      if cases[0].port != out {
        assert GeneratedFrom(hook, cases[1..], table);
        SwitchIsLookup(hook, cases[1..], table, nodes, out);
      }
    }
  }

  /** What the entries that ports write into the peers table mean for a packet: a netdev is a
      redirect to it, a program is called with the port id as input port, and a port without
      an entry drops. */
  lemma DirectsForwards(hook: Hook, peers: map<(nat, nat), PeerInfo>, cube: nat, table: Table, nodes: set<nat>,
                        out: nat, h: ServiceChain.Hop, portId: nat)
    requires Peers.Directs(peers, (cube, out), h, portId) && h.next < PORT_SHIFT && (h.next == 0 ==> !h.netdev)
    requires out in table <==> (cube, out) in peers
    requires out in table ==> table[out] == peers[(cube, out)]
    requires 0 !in nodes
    ensures var r := Lookup(hook, table, nodes, out);
            if h.netdev then r.Redirected? && r.ifindex == h.next && (hook == TC ==> r.mark / PORT_SHIFT == portId)
            else r == if h.next in nodes then Called(h.next, portId) else Dropped
  {
    var v := h.next + portId * PORT_SHIFT;
    assert v % PORT_SHIFT == h.next && v / PORT_SHIFT == portId;
  }

  /** A cube's view of its forwarding: the chain it generates code from, the table, and
      the code loaded last. */
  class Forwarding {
    const hook: Hook
    var chain: Table
    var peers: Table
    var code: seq<Case>

    constructor (hook: Hook)
      ensures Valid() && this.hook == hook && peers == map[]
    {
      this.hook, chain, peers, code := hook, map[], map[], [];
    }

    ghost predicate Valid()
      reads this
    {
      chain == peers && GeneratedFrom(hook, code, peers) && FirstPorts(code, peers)
    }

    /** An update reaches the chain, the table and, by reloading, the code. */
    method UpdateForwardingTable(port: nat, next: nat, netdev: bool)
      requires Valid()
      modifies this
      ensures Valid()
      ensures peers == if next != 0 then old(peers)[port := PeerInfo(next, netdev)] else old(peers) - {port}
    {
      if next != 0 {
        chain := chain[port := PeerInfo(next, netdev)];
        peers := peers[port := PeerInfo(next, netdev)];
      } else {
        chain := chain - {port};
        peers := peers - {port};
      }
      code := GetRedirectCode(hook, chain);
    }

    /** Whatever was updated, forwarding is table lookup. */
    lemma ForwardsByTable(nodes: set<nat>, out: nat)
      requires Valid()
      ensures Switch(hook, code, peers, nodes, out) == Lookup(hook, peers, nodes, out)
    {
      SwitchIsLookup(hook, code, peers, nodes, out);
    }

    /** A port without a peer drops: it has no entry, or one that names index 0, which no
        program has. */
    lemma UnpeeredDrops(nodes: set<nat>, out: nat)
      requires Valid() && 0 !in nodes && (out in peers ==> !peers[out].netdev && peers[out].info % PORT_SHIFT == 0)
      ensures Switch(hook, code, peers, nodes, out) == Dropped
    {
      SwitchIsLookup(hook, code, peers, nodes, out);
    }
  }

  /** While the table is updated but the code not yet reloaded, an optimized port still
      uses its old peer and any other port the new one. */
  lemma {:induction false} BeforeReload(hook: Hook, cases: seq<Case>, old': Table, table: Table, nodes: set<nat>,
                                        out: nat)
    requires GeneratedFrom(hook, cases, old')
    ensures (forall i :: 0 <= i < |cases| ==> cases[i].port != out) ==>
              Switch(hook, cases, table, nodes, out) == Lookup(hook, table, nodes, out)
    ensures (exists i :: 0 <= i < |cases| && cases[i].port == out) && Lookup(hook, old', nodes, out) != Dropped ==>
              Switch(hook, cases, table, nodes, out) == Lookup(hook, old', nodes, out)
  {
    if cases != [] {
      assert cases[0] == Generate(hook, cases[0].port, old'[cases[0].port]);
      if cases[0].port != out {
        assert GeneratedFrom(hook, cases[1..], old');
        BeforeReload(hook, cases[1..], old', table, nodes, out);
        assert forall i :: 1 <= i < |cases| ==> cases[i] == cases[1..][i - 1];
      }
    }
  }
}
