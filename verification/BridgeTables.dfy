/** The two views of a bridge's configuration: the control plane's objects and the
    datapath's tables, and what a frame does in each. */
module BridgeTables {

  const WILDCARD := 0    // the key of an access port in port_vlan

  datatype Mode = ACCESS | TRUNK

  datatype StpState = DISABLED | LISTENING | LEARNING | FORWARDING | BLOCKING

  predicate ForwardsIn(s: StpState) {
    s == DISABLED || s == FORWARDING
  }

  predicate LearnsIn(s: StpState) {
    s == DISABLED || s == LEARNING || s == FORWARDING
  }

  predicate ValidVlan(v: nat) {
    0 < v <= 4094
  }

  datatype PortVlan = PortVlan(vlan: nat, state: StpState)

  datatype PortInfo = PortInfo(mode: Mode, native: nat, nativeEnabled: bool)

  /** The control plane's configuration of one port. */
  datatype Conf = Access(vlan: nat) | Trunk(allowed: set<nat>, native: nat, nativeEnabled: bool)
  {
    predicate Member(v: nat) {
      match this case Access(a) => v == a case Trunk(a, _, _) => v in a
    }

    predicate OwnsKey(k: nat) {
      match this case Access(_) => k == WILDCARD case Trunk(a, _, _) => k in a
    }

    function VlanAt(k: nat): nat {
      match this case Access(a) => a case Trunk(_, _, _) => k
    }

    /** The key of the row for a VLAN. */
    function KeyOf(v: nat): nat {
      match this case Access(_) => WILDCARD case Trunk(_, _, _) => v
    }

    function Info(): PortInfo {
      match this case Access(_) => PortInfo(ACCESS, 1, true) case Trunk(_, n, e) => PortInfo(TRUNK, n, e)
    }

    function Vlans(): set<nat> {
      match this case Access(a) => {a} case Trunk(a, _, _) => a
    }

    ghost predicate Valid() {
      forall v :: v in Vlans() ==> ValidVlan(v)
    }

    predicate IsNative(v: nat) {
      Trunk? && nativeEnabled && native == v
    }
  }

  /** The datapath's tables, keyed by (port, vlan) and by port. */
  datatype Tables = Tables(portVlan: map<(nat, nat), PortVlan>, ports: map<nat, PortInfo>)

  /** The rows of one port are those of its configuration. */
  ghost predicate RowsOf(t: Tables, p: nat, c: Conf) {
    && p in t.ports && t.ports[p] == c.Info()
    && forall k: nat {:trigger (p, k) in t.portVlan} :: ((p, k) in t.portVlan <==> c.OwnsKey(k))
                                  && ((p, k) in t.portVlan ==> t.portVlan[(p, k)].vlan == c.VlanAt(k))
  }

  ghost predicate NoRows(t: Tables, p: nat) {
    p !in t.ports && forall k: nat :: (p, k) !in t.portVlan
  }

  ghost predicate ImageAt(t: Tables, confs: map<nat, Conf>, p: nat) {
    if p in confs then RowsOf(t, p, confs[p]) else NoRows(t, p)
  }

  /** The tables are the image of the configurations. */
  ghost predicate Image(t: Tables, confs: map<nat, Conf>) {
    forall p: nat {:trigger ImageAt(t, confs, p)} :: ImageAt(t, confs, p)
  }

  ghost predicate SameRows(t: Tables, t': Tables, q: nat) {
    && (q in t.ports <==> q in t'.ports) && (q in t.ports ==> t'.ports[q] == t.ports[q])
    && forall k: nat {:trigger (q, k) in t'.portVlan} {:trigger (q, k) in t.portVlan} ::
         ((q, k) in t.portVlan <==> (q, k) in t'.portVlan) &&
           ((q, k) in t.portVlan ==> t'.portVlan[(q, k)] == t.portVlan[(q, k)])
  }

  /** Only rows of port p differ. */
  ghost predicate SameElsewhere(t: Tables, t': Tables, p: nat) {
    forall q: nat {:trigger SameRows(t, t', q)} :: q != p ==> SameRows(t, t', q)
  }

  lemma SameElsewhereTrans(a: Tables, b: Tables, c: Tables, p: nat)
    requires SameElsewhere(a, b, p) && SameElsewhere(b, c, p)
    ensures SameElsewhere(a, c, p)
  {
    forall q: nat | q != p ensures SameRows(a, c, q) {
      assert SameRows(a, b, q) && SameRows(b, c, q);
    }
  }

  lemma ImageUpdated(t: Tables, t': Tables, confs: map<nat, Conf>, p: nat, c: Conf)
    requires Image(t, confs) && SameElsewhere(t, t', p) && RowsOf(t', p, c)
    ensures Image(t', confs[p := c])
  {
    var confs' := confs[p := c];
    forall q: nat ensures ImageAt(t', confs', q) {
      assert ImageAt(t, confs, q) && (q != p ==> SameRows(t, t', q));
    }
  }

  lemma ImageRemoved(t: Tables, t': Tables, confs: map<nat, Conf>, p: nat)
    requires Image(t, confs) && SameElsewhere(t, t', p) && NoRows(t', p)
    ensures Image(t', confs - {p})
  {
    var confs' := confs - {p};
    forall q: nat ensures ImageAt(t', confs', q) {
      assert ImageAt(t, confs, q) && (q != p ==> SameRows(t, t', q));
    }
  }

  // -------------------------------------------------- changed STP states

  /** A changed state in the STP instance of VLAN v, as it is copied into the tables:
      whatever the port's VLANs, the row gets v. */
  function WriteState(t: Tables, confs: map<nat, Conf>, v: nat, change: (nat, StpState)): Tables {
    var (p, state) := change;
    if p !in confs then t
    else t.(portVlan := t.portVlan[(p, if confs[p].Access? then WILDCARD else v) := PortVlan(v, state)])
  }

  function WriteStates(t: Tables, confs: map<nat, Conf>, v: nat, changes: seq<(nat, StpState)>): Tables {
    if changes == [] then t
    else WriteState(WriteStates(t, confs, v, changes[..|changes|-1]), confs, v, changes[|changes|-1])
  }

  /** The row of VLAN v's instance for a port. */
  function RowKey(confs: map<nat, Conf>, v: nat, p: nat): (nat, nat)
    requires p in confs
  {
    (p, confs[p].KeyOf(v))
  }

  /** The last change of its port in the list. */
  ghost predicate LastChange(changes: seq<(nat, StpState)>, k: int) {
    0 <= k < |changes| && forall j :: k < j < |changes| ==> changes[j].0 != changes[k].0
  }

  ghost predicate Touches(confs: map<nat, Conf>, v: nat, changes: seq<(nat, StpState)>, key: (nat, nat)) {
    exists k :: 0 <= k < |changes| && changes[k].0 in confs && key == RowKey(confs, v, changes[k].0)
  }

  ghost predicate RowIs(t: Tables, key: (nat, nat), row: PortVlan) {
    key in t.portVlan && t.portVlan[key] == row
  }

  ghost predicate SameRow(t: Tables, t': Tables, key: (nat, nat)) {
    (key in t.portVlan <==> key in t'.portVlan) && (key in t.portVlan ==> t'.portVlan[key] == t.portVlan[key])
  }

  /** Each changed port's row holds its last state, and all other rows stay. */
  lemma StateRows(t: Tables, confs: map<nat, Conf>, v: nat, changes: seq<(nat, StpState)>)
    ensures forall k :: LastChange(changes, k) && changes[k].0 in confs ==>
              RowIs(WriteStates(t, confs, v, changes), RowKey(confs, v, changes[k].0), PortVlan(v, changes[k].1))
    ensures forall key :: !Touches(confs, v, changes, key) ==> SameRow(t, WriteStates(t, confs, v, changes), key)
  {
    hide WriteStates, SameRow, RowIs;
    forall k | LastChange(changes, k) && changes[k].0 in confs
      ensures RowIs(WriteStates(t, confs, v, changes), RowKey(confs, v, changes[k].0), PortVlan(v, changes[k].1))
    {
      LastStateCounts(t, confs, v, changes, k);
    }
    forall key | !Touches(confs, v, changes, key) ensures SameRow(t, WriteStates(t, confs, v, changes), key) {
      OtherRowsStay(t, confs, v, changes, key);
    }
  }

  lemma {:induction false} LastStateCounts(t: Tables, confs: map<nat, Conf>, v: nat, changes: seq<(nat, StpState)>,
                                           k: int)
    requires LastChange(changes, k) && changes[k].0 in confs
    ensures RowIs(WriteStates(t, confs, v, changes), RowKey(confs, v, changes[k].0), PortVlan(v, changes[k].1))
  {
    if k < |changes| - 1 { LastStateCounts(t, confs, v, changes[..|changes|-1], k); }
  }

  lemma {:induction false} OtherRowsStay(t: Tables, confs: map<nat, Conf>, v: nat, changes: seq<(nat, StpState)>,
                                         key: (nat, nat))
    requires !Touches(confs, v, changes, key)
    ensures SameRow(t, WriteStates(t, confs, v, changes), key)
  {
    if changes != [] {
      assert forall k :: 0 <= k < |changes| - 1 ==> changes[..|changes|-1][k] == changes[k];
      OtherRowsStay(t, confs, v, changes[..|changes|-1], key);
    }
  }

  /** The states after the changes of VLAN v's instance. */
  function Applied(states: map<(nat, nat), StpState>, v: nat,
                   changes: seq<(nat, StpState)>): map<(nat, nat), StpState> {
    if changes == [] then states
    else Applied(states, v, changes[..|changes|-1])[(changes[|changes|-1].0, v) := changes[|changes|-1].1]
  }

  lemma MemberStateSyncs(t: Tables, confs: map<nat, Conf>, states: map<(nat, nat), StpState>, v: nat,
                         change: (nat, StpState))
    requires Image(t, confs) && Synced(t, confs, states) && (change.0 in confs ==> confs[change.0].Member(v))
    ensures Synced(WriteState(t, confs, v, change), confs, states[(change.0, v) := change.1])
  {
    var t', states' := WriteState(t, confs, v, change), states[(change.0, v) := change.1];
    forall p: nat, k: nat | p in confs && (p, k) in t'.portVlan
      ensures (p, confs[p].VlanAt(k)) in states' && states'[(p, confs[p].VlanAt(k))] == t'.portVlan[(p, k)].state
    {
      assert ImageAt(t, confs, p);
    }
  }

  /** Copying the changed states of members keeps the tables in step with the instances. */
  lemma {:induction false} StatesKeepSynced(t: Tables, confs: map<nat, Conf>, states: map<(nat, nat), StpState>,
                                            v: nat, changes: seq<(nat, StpState)>)
    requires Image(t, confs) && Synced(t, confs, states) && AllMembers(confs, v, changes)
    ensures Synced(WriteStates(t, confs, v, changes), confs, Applied(states, v, changes))
  {
    if changes != [] {
      var n := |changes| - 1;
      assert AllMembers(confs, v, changes[..n]);
      StatesKeepSynced(t, confs, states, v, changes[..n]);
      StatesKeepImage(t, confs, v, changes[..n]);
      MemberStateSyncs(WriteStates(t, confs, v, changes[..n]), confs, Applied(states, v, changes[..n]), v, changes[n]);
    }
  }

  /** A port whose new rows are blocking, in instances that let it start as blocking: the
      tables stay in step, whatever other rows it loses. */
  lemma NewRowsBlock(t: Tables, t': Tables, confs: map<nat, Conf>, c: Conf, states: map<(nat, nat), StpState>, p: nat)
    requires Image(t, confs) && Synced(t, confs, states) && SameElsewhere(t, t', p) && RowsOf(t', p, c)
    requires forall k: nat {:trigger (p, k) in t'.portVlan} :: (p, k) in t'.portVlan ==>
               t'.portVlan[(p, k)].state == BLOCKING
               || (p in confs && (p, k) in t.portVlan && t.portVlan[(p, k)] == t'.portVlan[(p, k)])
    ensures var joined := map v | v in c.Vlans() &&
            t'.portVlan[(p, c.KeyOf(v))].state == BLOCKING :: (p, v) := BLOCKING;
            Synced(t', confs[p := c], states + joined)
  {
    var confs' := confs[p := c];
    var joined := map v | v in c.Vlans() && t'.portVlan[(p, c.KeyOf(v))].state == BLOCKING :: (p, v) := BLOCKING;
    forall q: nat, k: nat | q in confs' && (q, k) in t'.portVlan
      ensures var key := (q, confs'[q].VlanAt(k));
              key in states + joined && (states + joined)[key] == t'.portVlan[(q, k)].state
    {
      assert ImageAt(t, confs, q) && (q != p ==> SameRows(t, t', q));
    }
  }

  /** Every changed port is a member of the VLAN. */
  predicate AllMembers(confs: map<nat, Conf>, v: nat, changes: seq<(nat, StpState)>) {
    forall k :: 0 <= k < |changes| && changes[k].0 in confs ==> confs[changes[k].0].Member(v)
  }

  /** Port p, outside VLAN v, has a row for it. */
  ghost predicate Astray(t: Tables, confs: map<nat, Conf>, p: nat, v: nat) {
    && p in confs && !confs[p].Member(v)
    && var key := (p, if confs[p].Access? then WILDCARD else v);
       key in t.portVlan && t.portVlan[key].vlan == v
  }

  lemma AstrayIsNoImage(t: Tables, confs: map<nat, Conf>, p: nat, v: nat)
    requires Astray(t, confs, p, v)
    ensures !Image(t, confs)
  {
    assert !ImageAt(t, confs, p);
  }

  lemma MemberStateKeeps(t: Tables, confs: map<nat, Conf>, v: nat, change: (nat, StpState))
    requires Image(t, confs) && (change.0 in confs ==> confs[change.0].Member(v))
    ensures Image(WriteState(t, confs, v, change), confs)
  {
    var t' := WriteState(t, confs, v, change);
    forall q: nat ensures ImageAt(t', confs, q) {
      assert ImageAt(t, confs, q);
    }
  }

  /** Copying changed states keeps the image if and only if every changed port is a member
      of the VLAN. */
  lemma {:induction false} StatesKeepImage(t: Tables, confs: map<nat, Conf>, v: nat, changes: seq<(nat, StpState)>)
    requires Image(t, confs)
    ensures AllMembers(confs, v, changes) ==> Image(WriteStates(t, confs, v, changes), confs)
    ensures !AllMembers(confs, v, changes) ==> exists p :: Astray(WriteStates(t, confs, v, changes), confs, p, v)
    ensures Image(WriteStates(t, confs, v, changes), confs) <==> AllMembers(confs, v, changes)
  {
    if changes != [] {
      var n := |changes| - 1;
      var before, t' := WriteStates(t, confs, v, changes[..n]), WriteStates(t, confs, v, changes);
      StatesKeepImage(t, confs, v, changes[..n]);
      assert changes == changes[..n] + [changes[n]];
      if AllMembers(confs, v, changes) {
        MemberStateKeeps(before, confs, v, changes[n]);
      } else if AllMembers(confs, v, changes[..n]) {
        assert Astray(t', confs, changes[n].0, v);
      } else {
        var p :| Astray(before, confs, p, v);
        assert Astray(t', confs, p, v);
      }
    }
    if !AllMembers(confs, v, changes) {
      var p :| Astray(WriteStates(t, confs, v, changes), confs, p, v);
      AstrayIsNoImage(WriteStates(t, confs, v, changes), confs, p, v);
    }
  }

  /** A port that leaves a VLAN changes state in its instance; copying that state lets
      frames of the VLAN in again. */
  lemma LeftPortComesBack()
    ensures var confs := map[1 := Trunk({1}, 1, true)];
            var t := Tables(map[(1, 1) := PortVlan(1, FORWARDING)], map[1 := PortInfo(TRUNK, 1, true)]);
            var t' := WriteState(t, confs, 20, (1, DISABLED));
            && Image(t, confs) && Admit(t, 1, Frame(0, 0, true, 20)).None?
            && Admit(t', 1, Frame(0, 0, true, 20)).Some? && FastPath(t', true, 1, 20, true).Send?
  {
  }

  // ------------------------------------------------------------ STP counting

  /** The ports that hold the STP instance of a VLAN. */
  ghost function Holders(held: map<nat, set<nat>>, v: nat): set<nat> {
    set p | p in held && v in held[p]
  }

  /** The counter of an instance is the number of ports that hold it, and an instance
      exists iff that number is positive. */
  ghost predicate Counted(counters: map<nat, nat>, held: map<nat, set<nat>>, v: nat) {
    && (v in counters <==> Holders(held, v) != {})
    && (v in counters ==> counters[v] == |Holders(held, v)|)
  }

  ghost predicate Conserved(counters: map<nat, nat>, held: map<nat, set<nat>>) {
    forall v: nat {:trigger Counted(counters, held, v)} :: Counted(counters, held, v)
  }

  function Acquired(counters: map<nat, nat>, v: nat): map<nat, nat> {
    counters[v := (if v in counters then counters[v] else 0) + 1]
  }

  function Released(counters: map<nat, nat>, v: nat): map<nat, nat>
    requires v in counters && counters[v] > 0
  {
    if counters[v] == 1 then counters - {v} else counters[v := counters[v] - 1]
  }

  lemma AcquireKeeps(counters: map<nat, nat>, held: map<nat, set<nat>>, p: nat, v: nat)
    requires Conserved(counters, held) && p in held && v !in held[p]
    ensures Conserved(Acquired(counters, v), held[p := held[p] + {v}])
  {
    var held' := held[p := held[p] + {v}];
    forall w: nat ensures Counted(Acquired(counters, v), held', w) {
      assert Counted(counters, held, w);
      if w == v {
        assert Holders(held', v) == Holders(held, v) + {p};
      } else {
        assert Holders(held', w) == Holders(held, w);
      }
    }
  }

  lemma ReleaseKeeps(counters: map<nat, nat>, held: map<nat, set<nat>>, p: nat, v: nat)
    requires Conserved(counters, held) && p in held && v in held[p]
    ensures v in counters && counters[v] > 0
    ensures Conserved(Released(counters, v), held[p := held[p] - {v}])
  {
    var held' := held[p := held[p] - {v}];
    assert p in Holders(held, v) && Counted(counters, held, v);
    forall w: nat ensures Counted(Released(counters, v), held', w) {
      assert Counted(counters, held, w);
      if w == v {
        assert Holders(held', v) == Holders(held, v) - {p};
        assert Holders(held', v) == {} <==> |Holders(held', v)| == 0;
      } else {
        assert Holders(held', w) == Holders(held, w);
      }
    }
  }

  /** Ports that hold nothing do not count. */
  lemma IdlePort(counters: map<nat, nat>, held: map<nat, set<nat>>, p: nat)
    requires Conserved(counters, held) && (p in held ==> held[p] == {})
    ensures Conserved(counters, held[p := {}]) && Conserved(counters, held - {p})
  {
    var more, less := held[p := {}], held - {p};
    forall v: nat ensures Counted(counters, more, v) && Counted(counters, less, v) {
      assert Counted(counters, held, v) && Holders(more, v) == Holders(held, v) == Holders(less, v);
    }
  }

  // ------------------------------------------------ what a frame does

  datatype Option<T> = None | Some(value: T)

  /** The tag of a frame on the wire: `id` is negative when it cannot be parsed. */
  datatype Frame = Frame(dst: nat, src: nat, tagged: bool, id: int)

  /** The VLAN into which the datapath classifies a frame, and its STP state there. */
  function Admit(t: Tables, port: nat, f: Frame): Option<PortVlan> {
    if f.tagged && f.id < 0 then None
    else if port !in t.ports then None
    else
      var i := t.ports[port];
      if i.mode == ACCESS then
        if f.tagged || (port, WILDCARD) !in t.portVlan then None else Some(t.portVlan[(port, WILDCARD)])
      else if !f.tagged && !i.nativeEnabled then None
      else
        var v := if f.tagged then f.id else i.native;
        if (port, v) !in t.portVlan then None else Some(PortVlan(v, t.portVlan[(port, v)].state))
  }

  /** A frame is admitted only into a VLAN its port is a member of. */
  lemma AdmittedIsMember(t: Tables, confs: map<nat, Conf>, port: nat, f: Frame)
    requires Image(t, confs)
    ensures Admit(t, port, f).Some? ==> port in confs && confs[port].Member(Admit(t, port, f).value.vlan)
    ensures port in confs && confs[port].Trunk? && f.tagged ==>
              (Admit(t, port, f).Some? <==> f.id >= 0 && confs[port].Member(f.id))
    ensures port in confs && confs[port].Access? ==> (Admit(t, port, f).Some? <==> !f.tagged)
    ensures port in confs && confs[port].Trunk? && !f.tagged ==>
              (Admit(t, port, f).Some? <==> confs[port].nativeEnabled && confs[port].Member(confs[port].native))
    ensures Admit(t, port, f).Some? ==>
              var row, c := Admit(t, port, f).value, confs[port];
              && row.vlan == (match c case Access(a) => a case Trunk(_, n, _) => if f.tagged then f.id else n)
              && (port, c.KeyOf(row.vlan)) in t.portVlan && row.state == t.portVlan[(port, c.KeyOf(row.vlan))].state
  {
    assert ImageAt(t, confs, port);
  }

  /** What leaves a port. */
  datatype Decision = Drop | Send(push: bool, pop: bool)

  /** The datapath's decision for a frame of VLAN v that it forwards to `out`. */
  function FastPath(t: Tables, stp: bool, out: nat, v: nat, tagged: bool): Decision {
    if out !in t.ports then Drop
    else
      var i := t.ports[out];
      if i.mode == ACCESS then
        if (out, WILDCARD) !in t.portVlan || t.portVlan[(out, WILDCARD)].vlan != v then Drop
        else if stp && !ForwardsIn(t.portVlan[(out, WILDCARD)].state) then Drop
        else Send(false, tagged)
      else if (out, v) !in t.portVlan then Drop
      else if stp && !ForwardsIn(t.portVlan[(out, v)].state) then Drop
      else if i.nativeEnabled && v == i.native then Send(false, tagged)
      else Send(!tagged, false)
  }

  /** The control plane's decision when it floods a frame of VLAN v; `forwards` is the
      answer of the VLAN's STP instance for this port. */
  function SlowPath(c: Conf, stp: bool, forwards: bool, v: nat, tagged: bool): Decision {
    if stp && !forwards then Drop
    else
      match c
      case Access(a) => if v != a then Drop else Decide(tagged, false)
      case Trunk(allowed, _, _) => if v !in allowed then Drop else Decide(tagged, !c.IsNative(v))
  }

  function Decide(tagged: bool, sendTagged: bool): Decision {
    if tagged == sendTagged then Send(false, false)
    else if !tagged && sendTagged then Send(true, false)
    else Send(false, true)
  }

  /** A flooded frame leaves exactly members that forward, with the right tag. */
  lemma FloodedRight(c: Conf, stp: bool, forwards: bool, v: nat, tagged: bool)
    ensures var d := SlowPath(c, stp, forwards, v, tagged);
            (d.Send? <==> c.Member(v) && (stp ==> forwards)) && (d.Send? ==> RightTag(c, v, tagged, d))
  {
  }

  /** The STP state in the tables is the one of the instances, for every port and VLAN it
      is a member of. */
  ghost predicate Synced(t: Tables, confs: map<nat, Conf>, states: map<(nat, nat), StpState>) {
    forall p: nat, k: nat {:trigger (p, k) in t.portVlan} :: p in confs && (p, k) in t.portVlan ==>
      (p, confs[p].VlanAt(k)) in states && states[(p, confs[p].VlanAt(k))] == t.portVlan[(p, k)].state
  }

  /** Both paths decide alike once the tables agree and STP states are synced.  What an
      instance answers for a port outside its VLAN does not matter. */
  lemma SameDecision(t: Tables, confs: map<nat, Conf>, states: map<(nat, nat), StpState>, stp: bool, forwards: bool,
                     out: nat, v: nat, tagged: bool)
    requires Image(t, confs) && out in confs && (stp ==> Synced(t, confs, states))
    requires confs[out].Member(v) && (out, v) in states ==> forwards == ForwardsIn(states[(out, v)])
    ensures FastPath(t, stp, out, v, tagged) == SlowPath(confs[out], stp, forwards, v, tagged)
  {
    var c := confs[out];
    assert ImageAt(t, confs, out);
    match c
    case Access(a) => assert (out, WILDCARD) in t.portVlan;
    case Trunk(allowed, _, _) => assert v in allowed <==> (out, v) in t.portVlan;
  }

  /** What is done to a frame leaves it with one tag on a trunk whose native VLAN is another
      one, and with none elsewhere. */
  predicate RightTag(c: Conf, v: nat, tagged: bool, d: Decision)
    requires d.Send?
  {
    && (d.push ==> !tagged) && (d.pop ==> tagged)
    && (if tagged then 1 else 0) + (if d.push then 1 else 0) - (if d.pop then 1 else 0)
       == if c.Trunk? && !(c.nativeEnabled && c.native == v) then 1 else 0
  }

  /** A frame of VLAN v leaves exactly the ports that are members of v and, with STP, forward
      there; it leaves with the tag its membership asks for. */
  lemma LeavesMembersOnly(t: Tables, confs: map<nat, Conf>, stp: bool, out: nat, v: nat, tagged: bool)
    requires Image(t, confs)
    ensures out in confs && confs[out].Member(v) ==> (out, confs[out].KeyOf(v)) in t.portVlan
    ensures var d := FastPath(t, stp, out, v, tagged);
            && (d.Send? <==> out in confs && confs[out].Member(v)
                             && (stp ==> t.portVlan[(out, confs[out].KeyOf(v))].state in {DISABLED, FORWARDING}))
            && (d.Send? ==> RightTag(confs[out], v, tagged, d))
  {
    assert ImageAt(t, confs, out);
    assert out in confs && confs[out].Access? ==> (out, WILDCARD) in t.portVlan;
  }
}
