/** Port ids of a cube.  A shadow cube gives every port a twin in its namespace; the
    datapath finds one from the other by adding or subtracting one, which rests on ids
    being handed out smallest first. */
module ShadowPorts {
  import opened PatchPanel

  const MAX_PORTS := 128
  const PREFIX := "ns_port_"

  predicate Contains(name: string, part: string) {
    part <= name || (name != "" && Contains(name[1..], part))
  }

  /** The name of the port at the other end, in the namespace. */
  function Twin(name: string): string {
    PREFIX + name
  }

  lemma TwinContains(name: string)
    ensures Contains(Twin(name), PREFIX)
  {
  }

  lemma TwinInjective(a: string, b: string)
    requires Twin(a) == Twin(b)
    ensures a == b
  {
    assert Twin(a)[|PREFIX|..] == a && Twin(b)[|PREFIX|..] == b;
  }

  /** What goes wrong after an id has been allocated. */
  datatype Fault = Nothing | FirstPeer | Veth | SecondPeer

  datatype Outcome = Ok | Exists | ReservedName | NoFreePorts | Failed

  class Cube {
    const shadow: bool
    var free: set<nat>
    var byName: map<string, nat>
    var byIndex: map<nat, string>

    constructor (shadow: bool)
      ensures Valid() && this.shadow == shadow && byName == map[]
    {
      this.shadow := shadow;
      free, byName, byIndex := {}, map[], map[];
      new;
      for i := 0 to MAX_PORTS
        invariant forall k :: k in free <==> 0 <= k < i
        invariant byName == map[] && byIndex == map[]
      {
        free := free + {i};
      }
    }

    /** Ids are either free or used by one port. */
    ghost predicate Partitioned()
      reads this
    {
      && (forall i :: i in free || i in byIndex <==> 0 <= i < MAX_PORTS)
      && (forall i :: i in byIndex ==> i !in free && byIndex[i] in byName && byName[byIndex[i]] == i)
      && (forall n :: n in byName ==> byName[n] in byIndex && byIndex[byName[n]] == n)
    }

    /** Ids 2k and 2k + 1 are used together, by a port and its twin. */
    ghost predicate PairAt(k: nat)
      reads this`byIndex
    {
      && (2 * k in byIndex <==> 2 * k + 1 in byIndex)
      && (2 * k in byIndex ==> !Contains(byIndex[2 * k], PREFIX) && byIndex[2 * k + 1] == Twin(byIndex[2 * k]))
    }

    ghost predicate Paired()
      reads this`byIndex
    {
      forall k: nat {:trigger PairAt(k)} :: PairAt(k)
    }

    ghost predicate Valid()
      reads this
    {
      Partitioned() && (shadow ==> Paired())
    }

    method AllocatePortId() returns (ok: bool, id: nat)
      modifies this`free
      ensures ok <==> old(free) != {}
      ensures ok ==> id in old(free) && free == old(free) - {id} && forall k :: k in old(free) ==> id <= k
      ensures !ok ==> free == old(free)
    {
      if free == {} { return false, 0; }
      id := Least(free);
      free := free - {id};
      ok := true;
    }

    method Register(name: string, id: nat)
      modifies this`byName, this`byIndex
      ensures byName == old(byName)[name := id] && byIndex == old(byIndex)[id := name]
    {
      byName := byName[name := id];
      byIndex := byIndex[id := name];
    }

    method Unregister(name: string, id: nat)
      modifies this`byName, this`byIndex
      ensures byName == old(byName) - {name} && byIndex == old(byIndex) - {id}
    {
      byName := byName - {name};
      byIndex := byIndex - {id};
    }

    /** What the datapath assumes: a user port has an even id, its twin the next one. */
    lemma TwinIsNext(name: string)
      requires Valid() && shadow && name in byName
      ensures !Contains(name, PREFIX) ==>
                byName[name] % 2 == 0 && Twin(name) in byName && byName[Twin(name)] == byName[name] + 1
      ensures Contains(name, PREFIX) ==>
                byName[name] % 2 == 1 && byName[name] - 1 in byIndex && Twin(byIndex[byName[name] - 1]) == name
    {
      var i := byName[name];
      assert PairAt(i / 2);
      if i % 2 == 1 { TwinContains(byIndex[i - 1]); }
    }

    lemma TwinIsNew(name: string)
      requires Valid() && shadow && name !in byName
      ensures Twin(name) !in byName && Twin(name) != name
    {
      TwinContains(name);
      if Twin(name) in byName {
        TwinIsNext(Twin(name));
        TwinInjective(name, byIndex[byName[Twin(name)] - 1]);
      }
    }

    /** The smallest free id of a shadow cube is even and the next one is free too. */
    lemma FreeIdsArePaired(id: nat)
      requires Valid() && shadow && id in free && forall k :: k in free ==> id <= k
      ensures id % 2 == 0 && id + 1 in free
    {
      assert PairAt(id / 2);
      assert id % 2 == 1 ==> id - 1 in free || id - 1 in byIndex;
      assert id % 2 == 0 ==> id + 1 in free || id + 1 in byIndex;
    }

    /** A new port and its twin keep the pairs. */
    twostate lemma PairAdded(new name: string, new id: nat)
      requires old(Paired()) && id % 2 == 0 && id !in old(byIndex) && !Contains(name, PREFIX)
      requires byIndex == old(byIndex)[id := name][id + 1 := Twin(name)]
      ensures Paired()
    {
      forall k: nat ensures PairAt(k) {
        assert old(PairAt(k));
      }
    }

    /** The twin of a port just added under an even id. */
    method AddTwin(name: string, id: nat, fault: Fault) returns (r: Outcome)
      requires Partitioned() && shadow && id in byIndex && byIndex[id] == name && id % 2 == 0 && Twin(name) !in byName
      requires id + 1 in free && forall k :: k in free ==> id + 1 <= k
      modifies this
      ensures r == if fault == Veth || fault == SecondPeer then Failed else Ok
      ensures r == Ok ==> Partitioned() && byIndex == old(byIndex)[id + 1 := Twin(name)]
      ensures r == Ok ==> byName == old(byName)[Twin(name) := id + 1]
      ensures r == Failed ==> !PairAt(id / 2)
    {
      if fault == Veth { return Failed; }
      var ok, id2 := AllocatePortId();
      assert ok && id2 == id + 1;
      Register(Twin(name), id2);
      if fault == SecondPeer {
        Unregister(Twin(name), id2);
        return Failed;
      }
      r := Ok;
    }

    /** Adds a port.  The invariant survives exactly when nothing goes wrong after an id
        has been taken: the id of a port whose peer fails is never given back, and a
        twin that fails leaves its port behind.  The second allocation cannot fail. */
    method AddPort(name: string, fault: Fault) returns (r: Outcome)
      requires Valid() && (fault.Veth? || fault.SecondPeer? ==> shadow)
      modifies this
      ensures r == (if name in old(byName) then Exists
                    else if shadow && Contains(name, PREFIX) then ReservedName
                    else if old(free) == {} then NoFreePorts
                    else if fault == Nothing then Ok else Failed)
      ensures Valid() <==> r != Failed
      ensures r in {Exists, ReservedName, NoFreePorts} ==> unchanged(this)
      ensures r == Ok ==> name in byName && byName[name] in old(free) && forall k :: k in old(free) ==>
                byName[name] <= k
      ensures r == Ok ==> byName.Keys == old(byName).Keys + {name} + if shadow then {Twin(name)} else {}
    {
      if name in byName { return Exists; }
      if shadow && Contains(name, PREFIX) { return ReservedName; }
      var least: nat;
      if free != {} {
        least := Least(free);
        if shadow {
          FreeIdsArePaired(least);
          TwinIsNew(name);
        }
      }
      var ok, id := AllocatePortId();
      if !ok { return NoFreePorts; }
      assert id == least;
      Register(name, id);
      if fault == FirstPeer {
        Unregister(name, id);
        assert id !in free && id !in byIndex;
        return Failed;
      }
      if shadow {
        r := AddTwin(name, id, fault);
        if r == Ok { PairAdded(name, id); }
        return;
      }
      r := Ok;
    }

    /** A twin has no twin of its own. */
    lemma TwinHasNoTwin(name: string)
      requires Valid() && shadow && name in byName && Contains(name, PREFIX)
      ensures Twin(name) !in byName
    {
      TwinContains(name);
      if Twin(name) in byName {
        TwinIsNext(Twin(name));
        var i := byName[Twin(name)];
        assert PairAt(i / 2) && !Contains(byIndex[i - 1], PREFIX);
        TwinInjective(name, byIndex[i - 1]);
      }
    }

    /** Removes a port, and its twin.  A twin can be named itself: it goes, the removal
        fails, and its port is left without it. */
    method RemovePort(name: string) returns (ok: bool)
      requires Valid()
      modifies this
      ensures ok <==> name in old(byName) && !(shadow && Contains(name, PREFIX))
      ensures Valid() <==> ok || name !in old(byName)
      ensures name !in old(byName) ==> unchanged(this)
      ensures byName == old(byName) - (if shadow && ok then {name, Twin(name)} else {name})
      ensures name in old(byName) ==>
                free == old(free) + {old(byName)[name]} + if shadow && ok then {old(byName)[name] + 1} else {}
    {
      if name !in byName { return false; }
      var id := byName[name];
      if shadow {
        TwinIsNext(name);
        if Contains(name, PREFIX) { TwinHasNoTwin(name); }
      }
      Unregister(name, id);
      free := free + {id};
      if shadow {
        if Twin(name) !in byName {
          assert !PairAt(id / 2);
          return false;
        }
        var id2 := byName[Twin(name)];
        Unregister(Twin(name), id2);
        free := free + {id2};
        PairRemoved(id);
      }
      ok := true;
    }

    twostate lemma PairRemoved(new id: nat)
      requires old(Paired()) && id % 2 == 0 && byIndex == old(byIndex) - {id} - {id + 1}
      ensures Paired()
    {
      forall k: nat ensures PairAt(k) {
        assert old(PairAt(k));
      }
    }
  }
}
