/** The bridge's control plane: ports, their VLAN membership and their STP instances,
    kept in step with the datapath's tables. */
module Bridge {
  import opened BridgeTables

  /** The configuration a port is created with. */
  datatype PortConf = PortConf(mode: Mode, vlan: nat, allowed: seq<nat>, nativeEnabled: bool, native: nat)
  {
    /** No VLAN is out of range or repeated. */
    predicate Acceptable() {
      if mode == ACCESS then ValidVlan(vlan)
      else AllNew(allowed, {}) && (nativeEnabled ==> ValidVlan(native))
    }
  }

  predicate AllNew(vlans: seq<nat>, known: set<nat>) {
    vlans == [] || (ValidVlan(vlans[0]) && vlans[0] !in known && AllNew(vlans[1..], known + {vlans[0]}))
  }

  /** The configuration that PortConf asks for. */
  function Requested(c: PortConf): Conf {
    if c.mode == ACCESS then Access(c.vlan)
    else Trunk((set v | v in c.allowed) + {1}, if c.nativeEnabled then c.native else 1, c.nativeEnabled)
  }

  class Port {
    const bridge: Bridge
    const index: nat
    var mode: Mode
    var vlan: nat             // access VLAN, 0 while there is none
    var allowed: set<nat>     // VLANs of the trunk
    var native: nat
    var nativeEnabled: bool
    var stps: set<nat>        // VLANs whose STP instance this port holds

    constructor (bridge: Bridge, index: nat, mode: Mode)
      ensures this.bridge == bridge && this.index == index && this.mode == mode
      ensures vlan == 0 && allowed == {} && stps == {}
    {
      this.bridge, this.index, this.mode := bridge, index, mode;
      vlan, allowed, native, nativeEnabled, stps := 0, {}, 1, true, {};
    }

    function Conf(): Conf
      reads this`mode, this`vlan, this`allowed, this`native, this`nativeEnabled
    {
      if mode == ACCESS then Access(vlan) else Trunk(allowed, native, nativeEnabled)
    }

    ghost predicate Registered()
      reads this`stps, bridge`ports, bridge`counters, bridge.ports.Values`stps
    {
      bridge.Shape() && index in bridge.ports && bridge.ports[index] == this && bridge.StpCounted()
    }

    /** Takes part in the STP instance of a VLAN, which is created if needed. */
    method InsertStp(v: nat) returns (ok: bool)
      requires Registered()
      modifies this`stps, bridge`counters
      ensures Registered()
      ensures ok <==> bridge.stpEnabled && v !in old(stps)
      ensures stps == if ok then old(stps) + {v} else old(stps)
      ensures !ok ==> bridge.counters == old(bridge.counters)
    {
      if !bridge.stpEnabled || v in stps { return false; }
      AcquireKeeps(bridge.counters, bridge.Held(), index, v);
      ghost var held := bridge.Held();
      stps := stps + {v};
      bridge.counters := Acquired(bridge.counters, v);
      assert bridge.Held() == held[index := held[index] + {v}];
      ok := true;
    }

    /** Leaves the STP instance of a VLAN, which disappears with its last port. */
    method ReleaseStp(v: nat)
      requires Registered() && bridge.stpEnabled && v in stps
      modifies this`stps, bridge`counters
      ensures Registered() && stps == old(stps) - {v}
    {
      ghost var held := bridge.Held();
      ReleaseKeeps(bridge.counters, held, index, v);
      stps := stps - {v};
      if v in bridge.counters {
        bridge.counters := bridge.counters[v := bridge.counters[v] - 1];
        if bridge.counters[v] == 0 {
          bridge.RemoveStp(v);
        }
      }
      assert bridge.Held() == held[index := held[index] - {v}];
      assert bridge.counters == Released(old(bridge.counters), v);
    }

    method RemoveStp(v: nat) returns (ok: bool)
      requires Registered()
      modifies this`stps, bridge`counters
      ensures Registered()
      ensures ok <==> bridge.stpEnabled && v in old(stps)
      ensures stps == if ok then old(stps) - {v} else old(stps)
    {
      if !bridge.stpEnabled || v !in stps { return false; }
      ReleaseStp(v);
      ok := true;
    }

    method RemoveStpList()
      requires Registered() && (bridge.stpEnabled || stps == {})
      modifies this`stps, bridge`counters
      ensures Registered() && stps == {}
    {
      while stps != {}
        invariant Registered() && (bridge.stpEnabled || stps == {})
        decreases stps
      {
        var v :| v in stps;
        ReleaseStp(v);
      }
    }

    // ------------------------------------------------------------- access

    ghost predicate AccessStp()
      reads this`vlan, this`stps, bridge`stpEnabled
    {
      stps == if bridge.stpEnabled && vlan != 0 then {vlan} else {}
    }

    method SetVlanid(value: nat) returns (ok: bool)
      requires Registered() && AccessStp()
      modifies this`vlan, this`stps, bridge`counters, bridge`portVlan
      ensures Registered() && AccessStp()
      ensures ok <==> ValidVlan(value)
      ensures vlan == if ok then value else old(vlan)
      ensures bridge.portVlan == if ok && value != old(vlan)
                                 then old(bridge.portVlan)[(index, WILDCARD) := PortVlan(value, BLOCKING)]
                                 else old(bridge.portVlan)
      ensures SameElsewhere(old(bridge.Tables()), bridge.Tables(), index)
    {
      if !ValidVlan(value) { return false; }
      if vlan == value { return true; }
      if bridge.stpEnabled {
        if vlan != 0 {
          ok := RemoveStp(vlan);
          assert ok;
        }
        ok := InsertStp(value);
        assert ok;
      }
      bridge.portVlan := bridge.portVlan[(index, WILDCARD) := PortVlan(value, BLOCKING)];
      vlan := value;
      ok := true;
    }

    method RemoveAccess()
      requires Registered() && AccessStp() && vlan != 0 && (index, WILDCARD) in bridge.portVlan
      modifies this`vlan, this`stps, bridge`counters, bridge`portVlan
      ensures Registered() && vlan == 0 && stps == {}
      ensures bridge.portVlan == old(bridge.portVlan) - {(index, WILDCARD)}
      ensures old(AccessRow()) ==> NoKeys()
      ensures SameElsewhere(old(bridge.Tables()), bridge.Tables(), index)
    {
      if bridge.stpEnabled {
        var ok := RemoveStp(vlan);
        assert ok;
      }
      bridge.portVlan := bridge.portVlan - {(index, WILDCARD)};
      vlan := 0;
    }

    // -------------------------------------------------------------- trunk

    ghost predicate TrunkStp()
      reads this`allowed, this`stps, bridge`stpEnabled
    {
      stps == if bridge.stpEnabled then allowed else {}
    }

    /** The rows of this port are those of its allowed VLANs. */
    ghost predicate TrunkRows()
      reads this`allowed, bridge`portVlan
    {
      && (forall v :: v in allowed ==> ValidVlan(v))
      && (forall k: nat :: (index, k) in bridge.portVlan <==> k in allowed)
      && (forall k: nat :: k in allowed ==> bridge.portVlan[(index, k)].vlan == k)
    }

    ghost predicate OnTrunk()
      reads this`allowed, this`stps, bridge`stpEnabled, bridge`ports, bridge`counters, bridge`portVlan,
        bridge.ports.Values`stps
    {
      Registered() && TrunkStp() && TrunkRows()
    }

    method AddAllowed(v: nat) returns (ok: bool)
      requires OnTrunk()
      modifies this`allowed, this`stps, bridge`counters, bridge`portVlan
      ensures OnTrunk()
      ensures ok <==> v !in old(allowed) && ValidVlan(v)
      ensures allowed == if ok then old(allowed) + {v} else old(allowed)
      ensures bridge.portVlan == if ok then old(bridge.portVlan)[(index, v) := PortVlan(v, BLOCKING)]
              else old(bridge.portVlan)
      ensures SameElsewhere(old(bridge.Tables()), bridge.Tables(), index)
    {
      if v in allowed { return false; }
      if !ValidVlan(v) { return false; }
      allowed := allowed + {v};
      if bridge.stpEnabled {
        ok := InsertStp(v);
        assert ok;
      }
      bridge.portVlan := bridge.portVlan[(index, v) := PortVlan(v, BLOCKING)];
      ok := true;
    }

    method DelAllowed(v: nat) returns (ok: bool)
      requires OnTrunk()
      modifies this`allowed, this`stps, bridge`counters, bridge`portVlan
      ensures OnTrunk()
      ensures ok <==> v in old(allowed)
      ensures allowed == if ok then old(allowed) - {v} else old(allowed)
      ensures bridge.portVlan == if ok then old(bridge.portVlan) - {(index, v)} else old(bridge.portVlan)
      ensures SameElsewhere(old(bridge.Tables()), bridge.Tables(), index)
    {
      if v !in allowed { return false; }
      allowed := allowed - {v};
      if bridge.stpEnabled {
        ok := RemoveStp(v);
        assert ok;
      }
      bridge.portVlan := bridge.portVlan - {(index, v)};
      ok := true;
    }

    /** Adds VLANs until one is refused. */
    method AddAllowedList(vlans: seq<nat>) returns (ok: bool)
      requires OnTrunk()
      modifies this`allowed, this`stps, bridge`counters, bridge`portVlan
      ensures OnTrunk()
      ensures ok <==> AllNew(vlans, old(allowed))
      ensures ok ==> allowed == old(allowed) + set v | v in vlans
      ensures old(AllBlocked()) ==> AllBlocked()
      ensures SameElsewhere(old(bridge.Tables()), bridge.Tables(), index)
    {
      for i := 0 to |vlans|
        invariant OnTrunk() && SameElsewhere(old(bridge.Tables()), bridge.Tables(), index)
        invariant AllNew(vlans, old(allowed)) <==> AllNew(vlans[i..], allowed)
        invariant allowed == old(allowed) + set v | v in vlans[..i]
        invariant old(AllBlocked()) ==> AllBlocked()
      {
        ghost var t := bridge.Tables();
        ok := AddAllowed(vlans[i]);
        SameElsewhereTrans(old(bridge.Tables()), t, bridge.Tables(), index);
        assert vlans[i..][1..] == vlans[i+1..] && vlans[..i+1] == vlans[..i] + [vlans[i]];
        if !ok { return; }
      }
      assert vlans[..|vlans|] == vlans;
      ok := true;
    }

    /** Deletes the VLANs that were allowed when it started. */
    method DelAllowedList()
      requires OnTrunk()
      modifies this`allowed, this`stps, bridge`counters, bridge`portVlan
      ensures OnTrunk() && allowed == {}
      ensures SameElsewhere(old(bridge.Tables()), bridge.Tables(), index)
    {
      var elements := allowed;
      while elements != {}
        invariant OnTrunk() && allowed == elements && SameElsewhere(old(bridge.Tables()), bridge.Tables(), index)
        decreases elements
      {
        var v :| v in elements;
        elements := elements - {v};
        ghost var t := bridge.Tables();
        var ok := DelAllowed(v);
        assert ok;
        SameElsewhereTrans(old(bridge.Tables()), t, bridge.Tables(), index);
      }
    }

    method SetNativeVlanEnabled(value: bool)
      modifies this`nativeEnabled, bridge`portInfo
      ensures nativeEnabled == value
      ensures bridge.portInfo == if value == old(nativeEnabled) then old(bridge.portInfo)
                                 else old(bridge.portInfo)[index := PortInfo(TRUNK, native, value)]
      ensures SameElsewhere(old(bridge.Tables()), bridge.Tables(), index)
    {
      if nativeEnabled == value { return; }
      bridge.portInfo := bridge.portInfo[index := PortInfo(TRUNK, native, value)];
      nativeEnabled := value;
    }

    method SetNativeVlan(value: nat) returns (ok: bool)
      modifies this`native, bridge`portInfo
      ensures ok <==> nativeEnabled && ValidVlan(value)
      ensures native == if ok then value else old(native)
      ensures bridge.portInfo == if ok && value != old(native)
                                 then old(bridge.portInfo)[index := PortInfo(TRUNK, value, true)]
                                 else old(bridge.portInfo)
      ensures SameElsewhere(old(bridge.Tables()), bridge.Tables(), index)
    {
      if !nativeEnabled || !ValidVlan(value) { return false; }
      if native == value { return true; }
      bridge.portInfo := bridge.portInfo[index := PortInfo(TRUNK, value, true)];
      native := value;
      ok := true;
    }

    // --------------------------------------------------------------- mode

    /** The rows and STP instances of this port are those of its configuration. */
    ghost predicate Settled()
      reads this, bridge, bridge.ports.Values
    {
      && Registered() && RowsOf(bridge.Tables(), index, Conf()) && Conf().Valid()
      && stps == if bridge.stpEnabled then Conf().Vlans() else {}
    }

    /** All rows of this port are blocking, as new rows are. */
    ghost predicate AllBlocked()
      reads bridge`portVlan
    {
      forall k: nat {:trigger (index, k) in bridge.portVlan} :: (index, k) in bridge.portVlan ==>
          bridge.portVlan[(index, k)].state == BLOCKING
    }

    ghost predicate NoKeys()
      reads bridge`portVlan
    {
      forall k: nat :: (index, k) !in bridge.portVlan
    }

    /** Everything a change of mode can write. */
    twostate predicate OnlyThisPort()
      reads this, bridge
    {
      && bridge.ports == old(bridge.ports) && bridge.stpEnabled == old(bridge.stpEnabled)
      && SameElsewhere(old(bridge.Tables()), bridge.Tables(), index)
    }

    lemma SettledIsOnTrunk()
      requires Settled() && mode == TRUNK
      ensures OnTrunk() && index in bridge.portInfo
      ensures bridge.portInfo[index] == PortInfo(TRUNK, native, nativeEnabled)
    {
    }

    lemma TrunkIsSettled()
      requires OnTrunk() && mode == TRUNK && index in bridge.portInfo
      requires bridge.portInfo[index] == PortInfo(TRUNK, native, nativeEnabled)
      ensures Settled()
    {
    }

    lemma SettledIsAccess()
      requires Settled() && mode == ACCESS
      ensures Registered() && AccessStp() && vlan != 0 && AccessRow() && (index, WILDCARD) in bridge.portVlan &&
              index in bridge.portInfo
      ensures ValidVlan(vlan) && bridge.portInfo[index] == PortInfo(ACCESS, 1, true)
    {
      assert vlan in Conf().Vlans() && (index, WILDCARD) in bridge.portVlan;
    }

    ghost predicate AccessRow()
      reads this`vlan, bridge`portVlan
    {
      && (forall k: nat :: (index, k) in bridge.portVlan <==> k == WILDCARD)
      && bridge.portVlan[(index, WILDCARD)].vlan == vlan
    }

    lemma AccessIsSettled()
      requires Registered() && AccessStp() && AccessRow() && ValidVlan(vlan) && mode == ACCESS
      requires index in bridge.portInfo && bridge.portInfo[index] == PortInfo(ACCESS, 1, true)
      ensures Settled()
    {
    }

    method InsertNative(enabled: bool, nativeVlan: nat) returns (ok: bool)
      requires index in bridge.portInfo && bridge.portInfo[index] == PortInfo(TRUNK, native, nativeEnabled)
      modifies this`native, this`nativeEnabled, bridge`portInfo
      ensures ok <==> (enabled ==> ValidVlan(nativeVlan))
      ensures nativeEnabled == enabled && native == if ok && enabled then nativeVlan else old(native)
      ensures index in bridge.portInfo && bridge.portInfo[index] == PortInfo(TRUNK, native, nativeEnabled)
      ensures bridge.portInfo == old(bridge.portInfo)[index := bridge.portInfo[index]]
      ensures SameElsewhere(old(bridge.Tables()), bridge.Tables(), index)
    {
      ok := true;
      SetNativeVlanEnabled(enabled);
      if nativeEnabled {
        ok := SetNativeVlan(nativeVlan);
      }
    }

    /** An empty trunk part. */
    method ClearTrunk()
      requires Registered() && NoKeys() && stps == {}
      modifies this`allowed, this`native, this`nativeEnabled
      ensures OnTrunk() && allowed == {} && native == 1 && nativeEnabled
    {
      allowed, native, nativeEnabled := {}, 1, true;
    }

    /** The trunk part of a port; VLAN 1 is always allowed. */
    method InsertTrunk(vlans: seq<nat>, enabled: bool, nativeVlan: nat) returns (ok: bool)
      requires Registered() && NoKeys() && stps == {} && mode == TRUNK
      requires index in bridge.portInfo && bridge.portInfo[index] == PortInfo(TRUNK, 1, true)
      modifies this`allowed, this`native, this`nativeEnabled, this`stps, bridge`counters, bridge`portVlan,
        bridge`portInfo
      ensures Registered() && OnlyThisPort()
      ensures ok <==> AllNew(vlans, {}) && (enabled ==> ValidVlan(nativeVlan))
      ensures ok ==>
                Settled() && Conf() == Trunk((set v | v in vlans) + {1}, if enabled then nativeVlan else 1, enabled)
      ensures AllBlocked()
      ensures index in bridge.portInfo && TrunkStp()
    {
      hide Bridge.StpCounted, Bridge.Shape;
      hide Registered, SameElsewhere, TrunkRows, Settled;
      ghost var t0 := bridge.Tables();
      ClearTrunk();
      ok := AddAllowedList(vlans);
      if !ok { return; }
      ghost var t1 := bridge.Tables();
      var _ := AddAllowed(1);
      ghost var t2 := bridge.Tables();
      ok := InsertNative(enabled, nativeVlan);
      SameElsewhereTrans(t0, t1, t2, index);
      SameElsewhereTrans(t0, t2, bridge.Tables(), index);
      if ok { TrunkIsSettled(); }
    }

    method WriteInfo(info: PortInfo, ghost t0: Tables)
      requires SameElsewhere(t0, bridge.Tables(), index)
      modifies bridge`portInfo
      ensures bridge.portInfo == old(bridge.portInfo)[index := info]
      ensures SameElsewhere(t0, bridge.Tables(), index)
    {
      bridge.portInfo := bridge.portInfo[index := info];
      assert SameElsewhere(old(bridge.Tables()), bridge.Tables(), index);
      SameElsewhereTrans(t0, old(bridge.Tables()), bridge.Tables(), index);
    }

    method ToAccess()
      requires OnTrunk() && mode == TRUNK
      modifies this, bridge`counters, bridge`portVlan, bridge`portInfo
      ensures Settled() && OnlyThisPort() && Conf() == Access(1) && AllBlocked()
    {
      hide Bridge.StpCounted, Bridge.Shape;
      hide Registered, SameElsewhere;
      ghost var t0 := bridge.Tables();
      DelAllowedList();
      ghost var t1 := bridge.Tables();
      vlan := 0;
      var ok := SetVlanid(1);
      SameElsewhereTrans(t0, t1, bridge.Tables(), index);
      WriteInfo(PortInfo(ACCESS, 1, true), t0);
      mode := ACCESS;
      AccessIsSettled();
    }

    method ToTrunk()
      requires Registered() && AccessStp() && vlan != 0 && AccessRow() && (index, WILDCARD) in bridge.portVlan &&
               mode == ACCESS
      modifies this, bridge`counters, bridge`portVlan, bridge`portInfo
      ensures Settled() && OnlyThisPort() && Conf() == Trunk({1}, 1, true) && AllBlocked()
    {
      hide Bridge.StpCounted, Bridge.Shape;
      hide Registered, SameElsewhere, TrunkRows, AccessRow, Settled;
      ghost var t0 := bridge.Tables();
      RemoveAccess();
      ghost var t1 := bridge.Tables();
      ClearTrunk();
      var ok := AddAllowed(1);
      SameElsewhereTrans(t0, t1, bridge.Tables(), index);
      BecomeTrunk(t0);
    }

    method BecomeTrunk(ghost t0: Tables)
      requires OnTrunk() && native == 1 && nativeEnabled && SameElsewhere(t0, bridge.Tables(), index)
      modifies this`mode, bridge`portInfo
      ensures Settled() && mode == TRUNK && SameElsewhere(t0, bridge.Tables(), index)
    {
      hide Bridge.StpCounted, Bridge.Shape;
      hide SameElsewhere;
      WriteInfo(PortInfo(TRUNK, 1, true), t0);
      mode := TRUNK;
      TrunkIsSettled();
    }

    /** Switches between access and trunk mode; the new part starts from VLAN 1. */
    method SetMode(value: Mode)
      requires Settled()
      modifies this, bridge`counters, bridge`portVlan, bridge`portInfo
      ensures Settled() && OnlyThisPort()
      ensures Conf() == if value == old(mode) then old(Conf())
                        else if value == ACCESS then Access(1) else Trunk({1}, 1, true)
      ensures if value == old(mode) then bridge.Tables() == old(bridge.Tables()) else AllBlocked()
    {
      if mode == value { return; }
      if value == ACCESS {
        SettledIsOnTrunk();
        ToAccess();
      } else {
        SettledIsAccess();
        ToTrunk();
      }
    }

    /** What this port does with a flooded frame of VLAN v; `forwards` is the answer of
        the VLAN's STP instance. */
    method SendPacketOut(tagged: bool, v: nat, forwards: bool) returns (d: Decision)
      ensures d == SlowPath(Conf(), bridge.stpEnabled, forwards, v, tagged)
      ensures d.Send? <==> Conf().Member(v) && (bridge.stpEnabled ==> forwards)
      ensures d.Send? ==> RightTag(Conf(), v, tagged, d)
    {
      if bridge.stpEnabled && !forwards { return Drop; }
      var sendTagged := false;
      if mode == ACCESS {
        if v != vlan { return Drop; }
      } else {
        if v !in allowed { return Drop; }
        sendTagged := !(nativeEnabled && native == v);
      }
      if tagged == sendTagged {
        d := Send(false, false);
      } else if !tagged && sendTagged {
        d := Send(true, false);
      } else {
        d := Send(false, true);
      }
    }

    // ---------------------------------------------------------------- STP

    /** Joins the STP instances of all VLANs of this port. */
    method SetStpEnabled()
      requires Registered() && bridge.stpEnabled && stps == {}
      modifies this`stps, bridge`counters
      ensures Registered() && stps == Conf().Vlans()
    {
      if mode == ACCESS {
        var ok := InsertStp(vlan);
        assert ok;
      } else {
        var left := allowed;
        while left != {}
          invariant Registered() && left <= allowed && stps == allowed - left
          decreases left
        {
          var v :| v in left;
          left := left - {v};
          var ok := InsertStp(v);
          assert ok;
        }
      }
    }
  }

  class Bridge {
    var stpEnabled: bool
    var counters: map<nat, nat>              // STP instances by VLAN, with their counters
    var ports: map<nat, Port>
    var portVlan: map<(nat, nat), PortVlan>  // tables of the datapath
    var portInfo: map<nat, PortInfo>

    function Tables(): Tables
      reads this`portVlan, this`portInfo
    {
      BridgeTables.Tables.Tables(portVlan, portInfo)
    }

    ghost predicate Shape()
      reads this`ports
    {
      forall i :: i in ports ==> ports[i].bridge == this && ports[i].index == i
    }

    ghost function Held(): map<nat, set<nat>>
      reads this`ports, ports.Values`stps
    {
      map i | i in ports :: ports[i].stps
    }

    ghost predicate StpCounted()
      reads this`ports, this`counters, ports.Values`stps
    {
      Conserved(counters, Held())
    }

    /** Removes the STP instance of a VLAN; only ever called while STP is on. */
    method RemoveStp(v: nat)
      requires stpEnabled && v in counters
      modifies this`counters
      ensures counters == old(counters) - {v}
    {
      counters := counters - {v};
    }

    ghost function Confs(): map<nat, Conf>
      reads this`ports, ports.Values`mode, ports.Values`vlan, ports.Values`allowed, ports.Values`native,
        ports.Values`nativeEnabled
    {
      map i | i in ports :: ports[i].Conf()
    }

    /** Both views agree: the tables are the image of the ports, STP instances are counted
        exactly, and each port holds the instances of its VLANs while STP is on. */
    ghost predicate Valid()
      reads this, ports.Values
    {
      && Shape() && StpCounted() && Image(Tables(), Confs())
      && forall i :: i in ports ==> PortOk(i)
    }

    ghost predicate PortOk(i: nat)
      requires i in ports
      reads this`ports, this`stpEnabled, ports[i]
    {
      ports[i].Conf().Valid() && ports[i].stps == if stpEnabled then ports[i].Conf().Vlans() else {}
    }

    lemma PortSettled(i: nat)
      requires Valid() && i in ports
      ensures ports[i].bridge == this && ports[i].index == i && ports[i].Settled()
      ensures forall j :: j in ports && j != i ==> ports[j] != ports[i]
    {
      assert ImageAt(Tables(), Confs(), i) && PortOk(i);
      assert forall j :: j in ports ==> PortOk(j);
    }

    /** An operation that settles one port and leaves the rows of the others alone keeps
        the invariant. */
    twostate lemma OnePortChanged(i: nat)
      requires old(Valid()) && i in ports && ports == old(ports) && stpEnabled == old(stpEnabled)
      requires ports[i].Settled() && SameElsewhere(old(Tables()), Tables(), i)
      requires forall j :: j in ports && j != i ==> unchanged(ports[j])
      ensures Valid() && Confs() == old(Confs())[i := ports[i].Conf()]
    {
      assert Confs() == old(Confs())[i := ports[i].Conf()];
      ImageUpdated(old(Tables()), Tables(), old(Confs()), i, ports[i].Conf());
      forall j | j in ports ensures PortOk(j) {
        assert old(PortOk(j));
      }
    }

    method SetMode(i: nat, value: Mode)
      requires Valid() && i in ports
      modifies ports[i], this`counters, this`portVlan, this`portInfo
      ensures Valid()
      ensures Confs() == if value == (if old(Confs())[i].Access? then ACCESS else TRUNK) then old(Confs())
                         else old(Confs())[i := if value == ACCESS then Access(1) else Trunk({1}, 1, true)]
      ensures SameElsewhere(old(Tables()), Tables(), i)
      ensures if value == (if old(Confs())[i].Access? then ACCESS else TRUNK) then Tables() == old(Tables())
              else ports[i].AllBlocked()
    {
      PortSettled(i);
      ports[i].SetMode(value);
      OnePortChanged(i);
    }

    /** The access VLAN of a port; refused in trunk mode and for an invalid VLAN. */
    method SetVlanid(i: nat, value: nat) returns (ok: bool)
      requires Valid() && i in ports
      modifies ports[i], this`counters, this`portVlan
      ensures Valid()
      ensures ok <==> old(Confs())[i].Access? && 0 < value <= 4094
      ensures Confs() == if ok then old(Confs())[i := Access(value)] else old(Confs())
      ensures portVlan == if ok && old(Confs())[i] != Access(value)
                          then old(portVlan)[(i, WILDCARD) := PortVlan(value, BLOCKING)]
                          else old(portVlan)
    {
      hide Image, SameElsewhere, StpCounted, Port.Settled, Port.OnTrunk, Bridge.Valid;
      PortSettled(i);
      var p := ports[i];
      if p.mode != ACCESS { return false; }
      p.SettledIsAccess();
      ok := p.SetVlanid(value);
      p.AccessIsSettled();
      OnePortChanged(i);
    }

    method AddAllowed(i: nat, v: nat) returns (ok: bool)
      requires Valid() && i in ports
      modifies ports[i], this`counters, this`portVlan
      ensures Valid()
      ensures ok <==> old(Confs())[i].Trunk? && v !in old(Confs())[i].allowed && 0 < v <= 4094
      ensures Confs() == if ok then var c := old(Confs())[i]; old(Confs())[i := c.(allowed := c.allowed + {v})]
              else old(Confs())
      ensures portVlan == if ok then old(portVlan)[(i, v) := PortVlan(v, BLOCKING)] else old(portVlan)
    {
      hide Image, SameElsewhere, StpCounted, Port.Settled, Port.OnTrunk, Bridge.Valid;
      PortSettled(i);
      var p := ports[i];
      if p.mode != TRUNK { return false; }
      p.SettledIsOnTrunk();
      ok := p.AddAllowed(v);
      p.TrunkIsSettled();
      OnePortChanged(i);
    }

    method DelAllowed(i: nat, v: nat) returns (ok: bool)
      requires Valid() && i in ports
      modifies ports[i], this`counters, this`portVlan
      ensures Valid()
      ensures ok <==> old(Confs())[i].Trunk? && v in old(Confs())[i].allowed
      ensures Confs() == if ok then var c := old(Confs())[i]; old(Confs())[i := c.(allowed := c.allowed - {v})]
              else old(Confs())
      ensures portVlan == if ok then old(portVlan) - {(i, v)} else old(portVlan)
    {
      hide Image, SameElsewhere, StpCounted, Port.Settled, Port.OnTrunk, Bridge.Valid;
      PortSettled(i);
      var p := ports[i];
      if p.mode != TRUNK { return false; }
      p.SettledIsOnTrunk();
      ok := p.DelAllowed(v);
      p.TrunkIsSettled();
      OnePortChanged(i);
    }

    method SetNativeVlanEnabled(i: nat, value: bool) returns (ok: bool)
      requires Valid() && i in ports
      modifies ports[i], this`portInfo
      ensures Valid() && (ok <==> old(Confs())[i].Trunk?)
      ensures Confs() == if ok then old(Confs())[i := old(Confs())[i].(nativeEnabled := value)] else old(Confs())
    {
      hide Image, SameElsewhere, StpCounted, Port.Settled, Port.OnTrunk, Bridge.Valid;
      PortSettled(i);
      var p := ports[i];
      if p.mode != TRUNK { return false; }
      p.SettledIsOnTrunk();
      p.SetNativeVlanEnabled(value);
      ok := true;
      p.TrunkIsSettled();
      OnePortChanged(i);
    }

    method SetNativeVlan(i: nat, value: nat) returns (ok: bool)
      requires Valid() && i in ports
      modifies ports[i], this`portInfo
      ensures Valid()
      ensures ok <==> old(Confs())[i].Trunk? && old(Confs())[i].nativeEnabled && ValidVlan(value)
      ensures Confs() == if ok then old(Confs())[i := old(Confs())[i].(native := value)] else old(Confs())
    {
      hide Image, SameElsewhere, StpCounted, Port.Settled, Port.OnTrunk, Bridge.Valid;
      PortSettled(i);
      var p := ports[i];
      if p.mode != TRUNK { return false; }
      p.SettledIsOnTrunk();
      ok := p.SetNativeVlan(value);
      p.TrunkIsSettled();
      OnePortChanged(i);
    }

    // ------------------------------------------------------ STP on and off

    /** How far a port has come while STP is turned on or off. */
    ghost predicate Joined(i: nat, left: set<nat>, enabling: bool)
      requires i in ports
      reads this`ports, ports[i]
    {
      ports[i].stps == if (i in left) != enabling then ports[i].Conf().Vlans() else {}
    }

    method MoveOne(i: nat, p: Port, ghost left: set<nat>, enabling: bool)
      requires Shape() && StpCounted() && stpEnabled && i in ports && ports[i] == p && i in left
      requires forall j {:trigger Joined(j, left, enabling)} :: j in ports ==> Joined(j, left, enabling)
      modifies this`counters, p`stps
      ensures Shape() && StpCounted()
      ensures forall j {:trigger Joined(j, left - {i}, enabling)} :: j in ports ==> Joined(j, left - {i}, enabling)
    {
      assert Joined(i, left, enabling);
      if enabling {
        p.SetStpEnabled();
      } else {
        p.RemoveStpList();
      }
      forall j | j in ports ensures Joined(j, left - {i}, enabling) {
        assert old(Joined(j, left, enabling));
      }
    }

    method MoveAll(enabling: bool)
      requires Shape() && StpCounted() && stpEnabled && forall i :: i in ports ==> Joined(i, ports.Keys, enabling)
      modifies this`counters, ports.Values`stps
      ensures Shape() && StpCounted() && forall i :: i in ports ==> Joined(i, {}, enabling)
    {
      var left := ports.Keys;
      while left != {}
        invariant left <= ports.Keys && Shape() && StpCounted()
        invariant forall i {:trigger Joined(i, left, enabling)} :: i in ports ==> Joined(i, left, enabling)
        decreases left
      {
        var i :| i in left;
        MoveOne(i, ports[i], left, enabling);
        left := left - {i};
      }
    }

    /** Turning STP on makes every port join the instances of its VLANs. */
    method EnableStp()
      requires Valid() && !stpEnabled
      modifies this`stpEnabled, this`counters, ports.Values`stps
      ensures Valid() && stpEnabled && Confs() == old(Confs())
    {
      hide *;
      AllJoined(true);
      stpEnabled := true;
      MoveAll(true);
      Switched(true);
    }

    /** Turning it off makes every port leave while STP still counts as on. */
    method DisableStp()
      requires Valid() && stpEnabled
      modifies this`stpEnabled, this`counters, ports.Values`stps
      ensures Valid() && !stpEnabled && Confs() == old(Confs())
    {
      hide *;
      AllJoined(false);
      MoveAll(false);
      stpEnabled := false;
      Switched(false);
    }

    lemma AllJoined(enabling: bool)
      requires Valid() && stpEnabled == !enabling
      ensures Shape() && StpCounted() && forall i :: i in ports ==> Joined(i, ports.Keys, enabling)
    {
    }

    twostate lemma Switched(value: bool)
      requires old(Valid()) && ports == old(ports) && stpEnabled == value && Tables() == old(Tables()) &&
               Confs() == old(Confs())
      requires Shape() && StpCounted() && forall i :: i in ports ==> Joined(i, {}, value)
      ensures Valid()
    {
      forall i | i in ports ensures PortOk(i) {
        assert old(PortOk(i)) && Joined(i, {}, value) && ports[i].Conf() == Confs()[i] == old(Confs())[i];
      }
    }

    method SetStpEnabled(value: bool)
      requires Valid()
      modifies this`stpEnabled, this`counters, ports.Values`stps
      ensures Valid() && stpEnabled == value && Confs() == old(Confs())
    {
      if stpEnabled == value { return; }
      if value { EnableStp(); } else { DisableStp(); }
    }

    /** While STP is off nothing is held; while it is on, an instance exists exactly for
        the VLANs of some port, with as many holders as ports. */
    lemma StpConserved()
      requires Valid()
      ensures !stpEnabled ==> counters == map[] && forall i :: i in ports ==> ports[i].stps == {}
      ensures stpEnabled ==> forall i :: i in ports ==> ports[i].stps == Confs()[i].Vlans()
      ensures stpEnabled ==> forall v: nat :: v in counters <==> exists i :: i in ports && v in Confs()[i].Vlans()
      ensures forall v: nat :: v in counters ==> counters[v] == |Holders(Held(), v)| && counters[v] > 0
    {
      assert forall i :: i in ports ==> PortOk(i);
      forall v: nat
        ensures v in counters <==> exists i :: i in ports && v in ports[i].stps
        ensures v in counters ==> counters[v] == |Holders(Held(), v)| && counters[v] > 0
      {
        assert Counted(counters, Held(), v);
        if i :| i in ports && v in ports[i].stps { assert i in Holders(Held(), v); }
      }
    }

    // -------------------------------------------------- adding and removing

    /** Registers a port that holds nothing yet and writes its row. */
    method Register(i: nat, mode: Mode) returns (p: Port)
      requires Valid() && i !in ports
      modifies this`ports, this`portInfo
      ensures fresh(p) && ports == old(ports)[i := p] && p.Registered() && p.index == i && p.bridge == this &&
              p.mode == mode
      ensures p.vlan == 0 && p.allowed == {} && p.stps == {} && p.NoKeys()
      ensures portInfo == old(portInfo)[i := PortInfo(mode, 1, true)]
      ensures SameElsewhere(old(Tables()), Tables(), i)
    {
      hide Image, Conserved;
      NoRowsYet(i);
      p := new Port(this, i, mode);
      ghost var held := Held();
      IdlePort(counters, held, i);
      portInfo := portInfo[i := PortInfo(mode, 1, true)];
      ports := ports[i := p];
      assert Held() == held[i := {}];
    }

    lemma NoRowsYet(i: nat)
      requires Valid() && i !in ports
      ensures forall k: nat :: (i, k) !in portVlan
    {
      assert ImageAt(Tables(), Confs(), i);
    }

    /** Forgets a port that holds nothing. */
    method Forget(i: nat)
      requires Shape() && StpCounted() && i in ports && ports[i].stps == {}
      modifies this`ports
      ensures Shape() && StpCounted() && ports == old(ports) - {i}
    {
      ghost var held := Held();
      IdlePort(counters, held, i);
      ports := ports - {i};
      assert Held() == held - {i};
    }

    /** The access or trunk part of a new port. */
    method Configure(p: Port, c: PortConf) returns (ok: bool)
      requires p.bridge == this && p.Registered() && p.NoKeys() && p.vlan == 0 && p.stps == {} && p.mode == c.mode
      requires p.index in portInfo && portInfo[p.index] == PortInfo(c.mode, 1, true)
      modifies p, this`counters, this`portVlan, this`portInfo
      ensures p.Registered() && ports == old(ports) && stpEnabled == old(stpEnabled)
      ensures SameElsewhere(old(Tables()), Tables(), p.index)
      ensures ok <==> c.Acceptable()
      ensures ok ==> p.Settled() && p.Conf() == Requested(c) && p.AllBlocked()
      ensures p.index in portInfo && (!stpEnabled ==> p.stps == {})
    {
      if c.mode == ACCESS {
        ok := p.SetVlanid(c.vlan);
        if ok { p.AccessIsSettled(); }
      } else {
        ok := p.InsertTrunk(c.allowed, c.nativeEnabled, c.native);
      }
    }

    /** A new port.  A configuration with an unacceptable VLAN is refused, but the row
        already written for the port stays behind. */
    method AddPort(i: nat, c: PortConf) returns (ok: bool)
      requires Valid() && i !in ports
      modifies this
      ensures ok <==> c.Acceptable()
      ensures ok ==> Valid() && Confs() == old(Confs())[i := Requested(c)] && i in ports && ports[i].AllBlocked()
      ensures SameElsewhere(old(Tables()), Tables(), i)
      ensures !ok ==> ports == old(ports) && Shape() && StpCounted() && stpEnabled == old(stpEnabled)
      ensures !ok ==> !Image(Tables(), Confs())
    {
      hide *;
      ghost var t0 := Tables();
      var p := Register(i, c.mode);
      ghost var t1 := Tables();
      ok := Configure(p, c);
      SameElsewhereTrans(t0, t1, Tables(), i);
      if ok {
        PortAdded(i);
      } else {
        Discard(p);
      }
    }

    /** A port whose creation failed leaves its STP instances, but not its row. */
    method Discard(p: Port)
      requires p.bridge == this && p.Registered() && p.index in portInfo && (!stpEnabled ==> p.stps == {})
      modifies this`ports, this`counters, p`stps
      ensures ports == old(ports) - {p.index} && Shape() && StpCounted() && !Image(Tables(), Confs())
    {
      p.RemoveStpList();
      Forget(p.index);
      assert !ImageAt(Tables(), Confs(), p.index);
    }

    twostate lemma PortAdded(i: nat)
      requires old(Valid()) && i in ports && i !in old(ports) && ports == old(ports)[i := ports[i]] &&
               stpEnabled == old(stpEnabled)
      requires ports[i].bridge == this && ports[i].index == i && ports[i].Settled() &&
               SameElsewhere(old(Tables()), Tables(), i)
      requires forall j :: j in old(ports) ==> unchanged(old(ports[j]))
      ensures Valid() && Confs() == old(Confs())[i := ports[i].Conf()]
    {
      hide Image, SameElsewhere, Conserved;
      ConfAdded(i);
      ImageUpdated(old(Tables()), Tables(), old(Confs()), i, ports[i].Conf());
      forall j | j in ports ensures PortOk(j) {
        assert j != i ==> old(PortOk(j));
      }
    }

    twostate lemma ConfAdded(i: nat)
      requires i in ports && i !in old(ports) && ports == old(ports)[i := ports[i]]
      requires forall j :: j in old(ports) ==> unchanged(old(ports[j]))
      ensures Confs() == old(Confs())[i := ports[i].Conf()]
    {
      assert forall j :: j in old(ports) ==> ports[j].Conf() == old(ports[j].Conf());
    }

    /** Clears the access or trunk part of a port and its row. */
    method Clear(p: Port)
      requires p.bridge == this && p.Settled()
      modifies p, this`counters, this`portVlan, this`portInfo
      ensures p.Registered() && p.OnlyThisPort() && p.stps == {} && NoRows(Tables(), p.index)
    {
      ghost var t0 := Tables();
      if p.mode == ACCESS {
        p.SettledIsAccess();
        p.RemoveAccess();
      } else {
        p.SettledIsOnTrunk();
        p.DelAllowedList();
      }
      ghost var t1 := Tables();
      portInfo := portInfo - {p.index};
      assert SameElsewhere(t1, Tables(), p.index);
      SameElsewhereTrans(t0, t1, Tables(), p.index);
    }

    /** Removes a port: its keys and STP instances, its row, and the port itself. */
    method RemovePort(i: nat)
      requires Valid() && i in ports
      modifies this, ports[i]
      ensures Valid() && Confs() == old(Confs()) - {i} && i !in ports && stpEnabled == old(stpEnabled)
      ensures SameElsewhere(old(Tables()), Tables(), i)
    {
      PortSettled(i);
      hide SameElsewhere, Conserved;
      Clear(ports[i]);
      Forget(i);
      PortRemoved(i);
    }

    twostate lemma PortRemoved(i: nat)
      requires old(Valid()) && i in old(ports) && ports == old(ports) - {i} && stpEnabled == old(stpEnabled)
      requires Shape() && StpCounted() && NoRows(Tables(), i) && SameElsewhere(old(Tables()), Tables(), i)
      requires forall j :: j in ports ==> unchanged(ports[j])
      ensures Valid() && Confs() == old(Confs()) - {i}
    {
      assert Confs() == old(Confs()) - {i};
      ImageRemoved(old(Tables()), Tables(), old(Confs()), i);
      forall j | j in ports ensures PortOk(j) {
        assert old(PortOk(j));
      }
    }

    // ------------------------------------------------------- STP states

    /** Copies the changed STP states of the instance of VLAN v into the tables: each port's
        row gets its last state.  That keeps the invariant exactly when every changed port is
        a member of v, and then also the agreement with the instances. */
    method UpdatePortsState(v: nat, changes: seq<(nat, StpState)>, ghost states: map<(nat, nat), StpState>)
      requires Valid()
      modifies this`portVlan
      ensures forall k :: LastChange(changes, k) && changes[k].0 in ports ==>
                RowIs(Tables(), (changes[k].0, if ports[changes[k].0].mode == ACCESS then WILDCARD else v),
                      PortVlan(v, changes[k].1))
      ensures forall key :: !Touches(Confs(), v, changes, key) ==> SameRow(old(Tables()), Tables(), key)
      ensures Confs() == old(Confs()) && (Valid() <==> AllMembers(Confs(), v, changes))
      ensures Tables() == WriteStates(old(Tables()), Confs(), v, changes)
      ensures Valid() && old(Synced(Tables(), Confs(), states)) ==>
                Synced(Tables(), Confs(), Applied(states, v, changes))
    {
      hide Image, AllMembers, Synced, LastChange, Touches, SameRow, RowIs, Applied, Bridge.Valid;
      ghost var t0 := Tables();
      ImageOf();
      for k := 0 to |changes|
        invariant Tables() == WriteStates(t0, Confs(), v, changes[..k])
      {
        var i := changes[k].0;
        assert changes[..k+1][..k] == changes[..k];
        if i in ports {
          var key := if ports[i].mode == ACCESS then WILDCARD else v;
          portVlan := portVlan[(i, key) := PortVlan(v, changes[k].1)];
        }
      }
      assert changes[..|changes|] == changes;
      StatesCopied(v, changes);
      if AllMembers(Confs(), v, changes) && Synced(t0, Confs(), states) {
        StatesKeepSynced(t0, Confs(), states, v, changes);
      }
      StateRows(t0, Confs(), v, changes);
    }

    lemma ImageOf()
      requires Valid()
      ensures Image(Tables(), Confs())
    {
    }

    twostate lemma StatesCopied(new v: nat, new changes: seq<(nat, StpState)>)
      requires old(Valid()) && Tables() == WriteStates(old(Tables()), Confs(), v, changes)
      requires unchanged(`ports, `stpEnabled, `counters, `portInfo) && forall i :: i in ports ==> unchanged(ports[i])
      ensures Confs() == old(Confs()) && (Valid() <==> AllMembers(Confs(), v, changes))
    {
      hide Image, Conserved, AllMembers;
      StatesKeepImage(old(Tables()), Confs(), v, changes);
      assert forall i :: i in ports ==> old(PortOk(i));
    }

    /** A frame that a port admits while STP is on finds the instance of its VLAN. */
    lemma InstanceExists(i: nat, f: Frame)
      requires Valid() && stpEnabled && Admit(Tables(), i, f).Some?
      ensures Admit(Tables(), i, f).value.vlan in counters
    {
      AdmittedIsMember(Tables(), Confs(), i, f);
      StpConserved();
    }

    /** Floods a frame of VLAN v that came in through port `from`; the instance of the
        VLAN, if STP is on, lets the ports in `forwards` forward.  The frame leaves exactly
        where the datapath would send it, with the same tag. */
    method BroadcastPacket(from: nat, v: nat, tagged: bool, forwards: set<nat>, ghost states: map<(nat, nat), StpState>)
      returns (out: map<nat, Decision>)
      requires Valid() && (stpEnabled ==> v in counters && Synced(Tables(), Confs(), states))
      requires forall i :: i in ports && (i, v) in states ==> (i in forwards <==> ForwardsIn(states[(i, v)]))
      ensures forall i :: i in out <==> i != from && FastPath(Tables(), stpEnabled, i, v, tagged).Send?
      ensures forall i :: i in out ==>
                i in ports && Confs()[i].Member(v) && out[i] == FastPath(Tables(), stpEnabled, i, v, tagged)
      ensures forall i ::
                i in out <==> i != from && i in ports && Confs()[i].Member(v) && (stpEnabled ==> i in forwards)
      ensures forall i :: i in out ==> out[i].Send? && RightTag(Confs()[i], v, tagged, out[i])
    {
      hide *;
      ghost var confs, stp := Confs(), stpEnabled;
      PortsOfBridge();
      out := map[];
      var left := ports.Keys;
      while left != {}
        invariant left <= ports.Keys
        invariant forall i ::
                    i in out <==> i in ports && i !in left && i != from
                                  && SlowPath(confs[i], stp, i in forwards, v, tagged).Send?
        invariant forall i :: i in out ==> out[i] == SlowPath(confs[i], stp, i in forwards, v, tagged)
        decreases left
      {
        var i :| i in left;
        left := left - {i};
        if i != from {
          var d := ports[i].SendPacketOut(tagged, v, i in forwards);
          if d.Send? { out := out[i := d]; }
        }
      }
      PathsAgree(v, tagged, forwards, states);
      forall i | i in out
        ensures Confs()[i].Member(v) && (stp ==> i in forwards) && RightTag(Confs()[i], v, tagged, out[i])
      {
        FloodedRight(confs[i], stp, i in forwards, v, tagged);
      }
      forall i | i in ports && i != from && Confs()[i].Member(v) && (stpEnabled ==> i in forwards) ensures i in out {
        FloodedRight(confs[i], stp, i in forwards, v, tagged);
      }
    }

    lemma PortsOfBridge()
      requires Valid()
      ensures Confs().Keys == ports.Keys
      ensures forall i :: i in ports ==> ports[i].bridge == this && ports[i].Conf() == Confs()[i]
    {
      assert forall i :: i in ports ==> PortOk(i);
    }

    lemma PathsAgree(v: nat, tagged: bool, forwards: set<nat>, states: map<(nat, nat), StpState>)
      requires Valid() && (stpEnabled ==> Synced(Tables(), Confs(), states))
      requires forall i :: i in ports && (i, v) in states ==> (i in forwards <==> ForwardsIn(states[(i, v)]))
      ensures forall i :: i in ports ==> ports[i].bridge == this
      ensures forall i :: i in ports ==>
                FastPath(Tables(), stpEnabled, i, v, tagged)
                == SlowPath(Confs()[i], stpEnabled, i in forwards, v, tagged)
      ensures forall i :: FastPath(Tables(), stpEnabled, i, v, tagged).Send? ==> i in ports && Confs()[i].Member(v)
    {
      forall i | i in ports
        ensures FastPath(Tables(), stpEnabled, i, v, tagged)
             == SlowPath(Confs()[i], stpEnabled, i in forwards, v, tagged)
      {
        SameDecision(Tables(), Confs(), states, stpEnabled, i in forwards, i, v, tagged);
      }
      forall i: nat ensures FastPath(Tables(), stpEnabled, i, v, tagged).Send? ==> i in ports && Confs()[i].Member(v) {
        LeavesMembersOnly(Tables(), Confs(), stpEnabled, i, v, tagged);
      }
    }
  }
}
