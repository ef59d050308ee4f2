/** Listing the services of a netdev by following the fields of its cubes. */
module ChainListing {
  import opened ServiceChain
  import opened TransparentCubes
  import opened Peers
  import opened Topology

  datatype Listing =
    | Returned(names: seq<string>)
    | NullDereference    // the next index belongs to no attached cube
    | Unfinished         // out of rounds

  /** What the listing reads of a list of cubes: an index, a next index and a name each. */
  datatype Fields = Fields(idx: Indexes, next: seq<nat>, names: seq<string>)
  {
    predicate Valid() {
      |idx| == |next| == |names|
    }
  }

  /** The successor index a cube reports; whether it names a netdev is not reported. */
  function Read(cubes: seq<TransparentCube>, d: Direction): (f: Fields)
    reads cubes
    ensures f.Valid() && f.idx == Indices(cubes, d) && f.names == Names(cubes)
    ensures forall i :: 0 <= i < |cubes| ==>
              f.next[i] == if d == INGRESS then cubes[i].next.ingress else cubes[i].next.egress.next
  {
    Fields(Indices(cubes, d),
           seq(|cubes|, i requires 0 <= i < |cubes| reads cubes =>
             if d == INGRESS then cubes[i].next.ingress else cubes[i].next.egress.next),
           Names(cubes))
  }

  /** The first cube with that index, or the length of the list. */
  method Find(idx: Indexes, index: nat) returns (i: nat)
    ensures i == FindFrom(idx, 0, index)
  {
    i := 0;
    while i < |idx| && idx[i] != index
      invariant i <= |idx| && FindFrom(idx, 0, index) == FindFrom(idx, i, index)
    {
      i := i + 1;
    }
  }

  function FindFrom(idx: Indexes, i: nat, index: nat): (r: nat)
    requires i <= |idx|
    ensures i <= r <= |idx| && (r < |idx| ==> idx[r] == index)
    ensures forall j :: i <= j < r ==> idx[j] != index
    decreases |idx| - i
  {
    if i == |idx| || idx[i] == index then i else FindFrom(idx, i + 1, index)
  }

  /** The loop as written, cut after a number of rounds. */
  function Follow(f: Fields, nh: nat, rounds: nat): Listing
    requires f.Valid()
    decreases rounds
  {
    if nh == PASS then Returned(["stack"])
    else if rounds == 0 then Unfinished
    else
      var i := FindFrom(f.idx, 0, nh);
      if i == |f.idx| then NullDereference
      else match Follow(f, f.next[i], rounds - 1)
           case Returned(names) => Returned([f.names[i]] + names)
           case other => other
  }

  // ------------------------------------------------------- when it returns

  /** Positions that hold programs. */
  ghost predicate At(idx: Indexes, v: seq<nat>) {
    forall j :: 0 <= j < |v| ==> v[j] < |idx| && idx[v[j]] != 0
  }

  /** The positions with a program, from i on, in list order. */
  function Upward(idx: Indexes, i: nat): (r: seq<nat>)
    requires i <= |idx|
    ensures At(idx, r) && forall j :: 0 <= j < |r| ==> i <= r[j]
    decreases |idx| - i
  {
    if i == |idx| then [] else (if idx[i] != 0 then [i] else []) + Upward(idx, i + 1)
  }

  /** The positions with a program below i, last first. */
  function Downward(idx: Indexes, i: nat): (r: seq<nat>)
    requires i <= |idx|
    ensures At(idx, r) && forall j :: 0 <= j < |r| ==> r[j] < i
  {
    if i == 0 then [] else (if idx[i-1] != 0 then [i - 1] else []) + Downward(idx, i - 1)
  }

  /** Every program is listed, once, in the order of the positions. */
  lemma {:induction false} UpwardSorted(idx: Indexes, i: nat)
    requires i <= |idx|
    ensures forall j, k :: 0 <= j < k < |Upward(idx, i)| ==> Upward(idx, i)[j] < Upward(idx, i)[k]
    ensures forall k :: i <= k < |idx| && idx[k] != 0 ==> k in Upward(idx, i)
    decreases |idx| - i
  {
    if i < |idx| { UpwardSorted(idx, i + 1); }
  }

  lemma {:induction false} DownwardSorted(idx: Indexes, i: nat)
    requires i <= |idx|
    ensures forall j, k :: 0 <= j < k < |Downward(idx, i)| ==> Downward(idx, i)[j] > Downward(idx, i)[k]
    ensures forall k :: 0 <= k < i && idx[k] != 0 ==> k in Downward(idx, i)
  {
    if i > 0 { DownwardSorted(idx, i - 1); }
  }

  /** From index nh on, the fields lead along the positions v and then to the stack. */
  ghost predicate Leads(f: Fields, v: seq<nat>, nh: nat)
    requires f.Valid() && At(f.idx, v)
    decreases |v|
  {
    && nh == (if v == [] then PASS else f.idx[v[0]])
    && (v != [] ==> Leads(f, v[1..], f.next[v[0]]))
  }

  ghost predicate FieldUp(f: Fields, j: nat)
    requires f.Valid()
  {
    j < |f.idx| && f.idx[j] != 0 ==> f.next[j] == After(f.idx, j + 1, Hop(PASS, false)).next
  }

  ghost predicate FieldDown(f: Fields, j: nat)
    requires f.Valid()
  {
    j < |f.idx| && f.idx[j] != 0 ==> f.next[j] == Before(f.idx, j, Hop(PASS, false)).next
  }

  /** Every field names the next program of the list, the last one the stack. */
  ghost predicate FieldsUp(f: Fields)
    requires f.Valid()
  {
    forall j: nat {:trigger FieldUp(f, j)} :: FieldUp(f, j)
  }

  ghost predicate FieldsDown(f: Fields)
    requires f.Valid()
  {
    forall j: nat {:trigger FieldDown(f, j)} :: FieldDown(f, j)
  }

  lemma {:induction false} UpwardLeads(f: Fields, i: nat)
    requires f.Valid() && i <= |f.idx| && FieldsUp(f)
    ensures Leads(f, Upward(f.idx, i), After(f.idx, i, Hop(PASS, false)).next)
    decreases |f.idx| - i
  {
    if i < |f.idx| {
      UpwardLeads(f, i + 1);
      assert FieldUp(f, i);
      if f.idx[i] != 0 {
        LeadsOn(f, i, Upward(f.idx, i + 1));
      } else {
        assert Upward(f.idx, i) == Upward(f.idx, i + 1);
      }
    }
  }

  lemma {:induction false} DownwardLeads(f: Fields, i: nat)
    requires f.Valid() && i <= |f.idx| && FieldsDown(f)
    ensures Leads(f, Downward(f.idx, i), Before(f.idx, i, Hop(PASS, false)).next)
  {
    if i > 0 {
      DownwardLeads(f, i - 1);
      assert FieldDown(f, i - 1);
      if f.idx[i-1] != 0 {
        LeadsOn(f, i - 1, Downward(f.idx, i - 1));
      } else {
        assert Downward(f.idx, i) == Downward(f.idx, i - 1);
      }
    }
  }

  lemma LeadsOn(f: Fields, i: nat, v: seq<nat>)
    requires f.Valid() && At(f.idx, v) && i < |f.idx| && f.idx[i] != 0 && Leads(f, v, f.next[i])
    ensures At(f.idx, [i] + v) && Leads(f, [i] + v, f.idx[i])
  {
  }

  function NamesAt(f: Fields, v: seq<nat>): seq<string>
    requires f.Valid() && At(f.idx, v)
  {
    seq(|v|, k requires 0 <= k < |v| => f.names[v[k]])
  }

  lemma FindsIt(idx: Indexes, i: nat)
    requires Injective(idx) && i < |idx| && idx[i] != 0
    ensures FindFrom(idx, 0, idx[i]) == i
  {
  }

  /** A listing that is led to the stack returns the names on the way. */
  lemma {:induction false} FollowsLeads(f: Fields, v: seq<nat>, nh: nat, more: nat)
    requires f.Valid() && At(f.idx, v) && Leads(f, v, nh)
    requires Injective(f.idx) && InPanel(f.idx)
    ensures Follow(f, nh, |v| + more) == Returned(NamesAt(f, v) + ["stack"])
  {
    if v == [] {
      assert NamesAt(f, v) + ["stack"] == ["stack"];
    } else {
      FindsIt(f.idx, v[0]);
      FollowsLeads(f, v[1..], f.next[v[0]], more);
      assert [f.names[v[0]]] + (NamesAt(f, v[1..]) + ["stack"]) == NamesAt(f, v) + ["stack"];
    }
  }

  /** The loop over the fields that lead along v. */
  method FollowFields(f: Fields, first: nat, ghost v: seq<nat>) returns (chain: seq<string>)
    requires f.Valid() && At(f.idx, v) && Leads(f, v, first)
    requires Injective(f.idx) && InPanel(f.idx)
    ensures chain == NamesAt(f, v) + ["stack"]
  {
    chain := [];
    var nh := first;
    ghost var k := 0;
    assert v[0..] == v;
    while nh != PASS
      invariant 0 <= k <= |v| && Leads(f, v[k..], nh) && chain == NamesAt(f, v[..k])
      decreases |v| - k
    {
      assert v[k..] != [] && v[k..][1..] == v[k+1..];
      FindsIt(f.idx, v[k]);
      var i := Find(f.idx, nh);
      chain := chain + [f.names[i]];
      nh := f.next[i];
      k := k + 1;
    }
    assert v[..k] == v;
    chain := chain + ["stack"];
  }

  /** The listing of a direction reaches the stack: nothing of a peer is in its way, and
      no XDP program ends in a redirect. */
  ghost predicate Listable(e: ExtIface, d: Direction)
    reads e
  {
    if d == INGRESS then e.peer == null
    else !e.HasPeerProgram() && (e.xdp ==> Live(e.Eg()) == [])
  }

  /** The positions whose names the listing gives: ingress 0..N-1, egress N-1..0. */
  function Visited(e: ExtIface, d: Direction): (r: seq<nat>)
    reads e`cubes
    ensures At(Indices(e.cubes, d), r)
  {
    if d == INGRESS then Upward(e.In(), 0) else Downward(e.Eg(), |e.cubes|)
  }

  function First(e: ExtIface, d: Direction): nat
    reads e`ingressNext, e`egressNext
  {
    if d == INGRESS then e.ingressNext else e.egressNext
  }

  /** The compiled links are the fields. */
  lemma FieldsAreLinks(cubes: seq<TransparentCube>, kernel: Kernel, xdp: bool)
    requires kernel.Valid() && Listed(cubes, kernel, xdp)
    ensures LinkedUp(kernel.maps.Panel(xdp), Indices(cubes, INGRESS), Hop(PASS, false)) ==>
              FieldsUp(Read(cubes, INGRESS))
    ensures LinkedDown(kernel.maps.Panel(xdp), Indices(cubes, EGRESS), Hop(PASS, false)) ==>
              FieldsDown(Read(cubes, EGRESS))
  {
    var m, end, up, down := kernel.maps.Panel(xdp), Hop(PASS, false), Read(cubes, INGRESS), Read(cubes, EGRESS);
    forall j: nat
      ensures LinkedUp(m, up.idx, end) ==> FieldUp(up, j)
      ensures LinkedDown(m, down.idx, end) ==> FieldDown(down, j)
    {
      if j < |cubes| {
        assert cubes[j].Loaded(kernel.maps);
        assert LinkedUp(m, up.idx, end) ==> NextAt(m, up.idx, j, end);
        assert LinkedDown(m, down.idx, end) ==> PreviousAt(m, down.idx, j, end);
      }
    }
  }

  lemma FirstLeads(n: Network, e: ExtIface, d: Direction)
    requires n.Valid() && e in n.ifaces && Listable(e, d)
    ensures Leads(Read(e.cubes, d), Visited(e, d), First(e, d))
    ensures Injective(Indices(e.cubes, d)) && InPanel(Indices(e.cubes, d))
  {
    n.IfaceFacts(e, n.kernel.maps);
    n.KernelFacts();
    hide Network.Valid;
    ListedIsInjective(e.cubes, d, n.kernel, e.xdp);
    FieldsAreLinks(e.cubes, n.kernel, e.xdp);
    if d == INGRESS {
      UpwardLeads(Read(e.cubes, d), 0);
    } else if !e.xdp {
      DownwardLeads(Read(e.cubes, d), |e.cubes|);
    } else {
      NothingBelow(e.Eg(), |e.cubes|);
    }
  }

  lemma {:induction false} NothingBelow(idx: Indexes, i: nat)
    requires i <= |idx| && Live(idx) == []
    ensures Downward(idx, i) == [] && Before(idx, i, Hop(PASS, false)) == Hop(PASS, false)
  {
    if i > 0 {
      NothingBelow(idx, i - 1);
      assert idx[i-1] in idx && (idx[i-1] != 0 ==> Live(idx) != []);
    }
  }

  /** The names of the ingress cubes 0..N-1, or of the egress cubes N-1..0, and then the
      stack; the loop ends because each round moves on in the list. */
  method GetServiceChain(n: Network, e: ExtIface, d: Direction) returns (chain: seq<string>)
    requires n.Valid() && e in n.ifaces && Listable(e, d)
    ensures chain == NamesAt(Read(e.cubes, d), Visited(e, d)) + ["stack"]
    ensures var v := Visited(e, d);
            && |chain| == |v| + 1 && chain[|v|] == "stack"
            && forall k :: 0 <= k < |v| ==> chain[k] == e.cubes[v[k]].name
  {
    FirstLeads(n, e, d);
    hide Network.Valid;
    chain := FollowFields(Read(e.cubes, d), First(e, d), Visited(e, d));
  }

  // ------------------------------------------------ when it does not return

  /** Fields that never name the stack are never left. */
  lemma {:induction false} NeverReturns(f: Fields, nh: nat, rounds: nat)
    requires f.Valid() && nh !in {0, PASS}
    requires forall i :: 0 <= i < |f.idx| && f.idx[i] != 0 ==> f.next[i] !in {0, PASS}
    ensures !Follow(f, nh, rounds).Returned?
    decreases rounds
  {
    if rounds > 0 {
      var i := FindFrom(f.idx, 0, nh);
      if i < |f.idx| { NeverReturns(f, f.next[i], rounds - 1); }
    }
  }

  /** What a successor field holds: never the stack, when the list ends elsewhere. */
  lemma FieldsElsewhere(n: Network, cubes: seq<TransparentCube>, xdp: bool, d: Direction, end: Hop)
    requires n.kernel.Valid() && Listed(cubes, n.kernel, xdp) && end.next !in {0, PASS}
    requires if d == INGRESS then LinkedUp(n.kernel.maps.Panel(xdp), Indices(cubes, d), end)
             else LinkedDown(n.kernel.maps.Panel(xdp), Indices(cubes, d), end)
    ensures forall i :: 0 <= i < |cubes| && cubes[i].Index(d) != 0 ==> Read(cubes, d).next[i] !in {0, PASS}
  {
    var idx, m := Indices(cubes, d), n.kernel.maps.Panel(xdp);
    ListedIsInjective(cubes, d, n.kernel, xdp);
    forall i | 0 <= i < |cubes| && idx[i] != 0 ensures Read(cubes, d).next[i] !in {0, PASS} {
      assert cubes[i].Loaded(n.kernel.maps);
      if d == INGRESS {
        assert NextAt(m, idx, i, end);
        AfterRange(idx, i + 1, end);
      } else {
        assert PreviousAt(m, idx, i, end);
        BeforeRange(idx, i, end);
      }
    }
  }

  /** With an egress program on an XDP netdev, or with a peer behind the ingress list,
      the listing never returns. */
  lemma ListingFails(n: Network, e: ExtIface, d: Direction, rounds: nat)
    requires n.Valid() && e in n.ifaces && !Listable(e, d)
    ensures !Follow(Read(e.cubes, d), First(e, d), rounds).Returned?
  {
    n.IfaceFacts(e, n.kernel.maps);
    n.KernelFacts();
    ListedIsInjective(e.cubes, d, n.kernel, e.xdp);
    if e.peer != null {
      n.PeerFacts(e.peer);
      n.PortFacts(e.peer, n.kernel.maps);
    }
    if d == EGRESS && e.HasPeerProgram() {
      EgressProgramElsewhere(n, e);
    } else {
      hide Network.Valid;
      var end := if d == INGRESS then e.IngressTail() else Hop(e.ifindex, true);
      FieldsElsewhere(n, e.cubes, e.xdp, d, end);
      if d == INGRESS { AfterRange(e.In(), 0, end); } else { HeadElsewhere(e); }
      NeverReturns(Read(e.cubes, d), First(e, d), rounds);
    }
  }

  lemma HeadElsewhere(e: ExtIface)
    requires InPanel(e.Eg()) && Live(e.Eg()) != []
    ensures e.EgressHead() !in {0, PASS}
  {
    assert e.Eg()[..|e.cubes|] == e.Eg();
    LiveDownIsReverse(e.Eg(), |e.cubes|);
    BeforeEnds(e.Eg(), |e.cubes|, Hop(PASS, false), Hop(PASS, false));
  }

  /** The egress program of the peer's cube belongs to no attached cube. */
  lemma EgressProgramElsewhere(n: Network, e: ExtIface)
    requires n.Valid() && e in n.ifaces && e.HasPeerProgram()
    ensures e.egressNext != PASS && FindFrom(e.Eg(), 0, e.egressNext) == |e.cubes|
  {
    var m, c := n.kernel.maps, e.peer.parent;
    n.IfaceFacts(e, m);
    n.PeerFacts(e.peer);
    n.PortFacts(e.peer, m);
    n.ParentsApart(e.cubes, e.xdp, m);
    assert c.egressIndex in c.Keys() && c.egressIndex < MAX_NODES;
    assert forall j :: 0 <= j < |e.cubes| ==> e.Eg()[j] in e.Eg();
  }

  /** Exactly when the listing returns, and what. */
  lemma ListingReturns(n: Network, e: ExtIface, d: Direction)
    requires n.Valid() && e in n.ifaces
    ensures (exists rounds: nat :: Follow(Read(e.cubes, d), First(e, d), rounds).Returned?) <==> Listable(e, d)
    ensures Listable(e, d) ==>
              Follow(Read(e.cubes, d), First(e, d), |Visited(e, d)|)
              == Returned(NamesAt(Read(e.cubes, d), Visited(e, d)) + ["stack"])
  {
    if Listable(e, d) {
      FirstLeads(n, e, d);
      FollowsLeads(Read(e.cubes, d), Visited(e, d), First(e, d), 0);
    } else {
      forall rounds: nat ensures !Follow(Read(e.cubes, d), First(e, d), rounds).Returned? {
        ListingFails(n, e, d, rounds);
      }
    }
  }
}
