/** The filtering database: learning and forwarding in the datapath, ageing and flushing
    in the control plane, interleaved in any order. */
module BridgeFdb {
  import opened BridgeTables

  const MAX_ENTRIES := 1024
  const CLOCK := 0x1_0000_0000    // timestamps are 32-bit seconds

  const BPDU_STP := 0x000000C28001
  const BPDU_PVST := 0xCDCCCC0C0001

  datatype Entry = Entry(timestamp: nat, port: nat, isStatic: bool)

  /** Entries by (VLAN, MAC address). */
  type Db = map<(nat, nat), Entry>

  function Age(e: Entry, now: nat): nat {
    (now - e.timestamp) % CLOCK
  }

  predicate Stale(e: Entry, now: nat, limit: nat) {
    !e.isStatic && Age(e, now) > limit
  }

  datatype Verdict =
    | Dropped
    | Bpdu(vlan: nat)
    | Flood(vlan: nat)
    | Forward(vlan: nat, port: nat, decision: Decision)

  /** What the datapath reads besides the database. */
  datatype Env = Env(tables: Tables, stp: bool, agingTime: nat)

  /** A full table takes no new key. */
  predicate HasRoom(db: Db, key: (nat, nat)) {
    key in db || |db| < MAX_ENTRIES
  }

  /** Learning: a static entry is never replaced. */
  function Learn(db: Db, v: nat, src: nat, port: nat, now: nat): Db {
    var key := (v, src);
    if key in db && db[key].isStatic then db
    else if !HasRoom(db, key) then db
    else db[key := Entry(now, port, false)]
  }

  /** Where a frame that port `port` admitted into VLAN v goes. */
  function Route(db: Db, env: Env, port: nat, v: nat, f: Frame, now: nat): (Db, Verdict) {
    var key := (v, f.dst);
    if key !in db then (db, Flood(v))
    else if Stale(db[key], now, env.agingTime) then (db - {key}, Flood(v))
    else
      var out := db[key].port;
      var seen := if db[key].isStatic then db else db[key := db[key].(timestamp := now)];
      if out !in env.tables.ports || out == port then (seen, Dropped)
      else
        var d := FastPath(env.tables, env.stp, out, v, f.tagged);
        (seen, if d.Drop? then Dropped else Forward(v, out, d))
  }

  predicate Learns(env: Env, port: nat, f: Frame) {
    && Admit(env.tables, port, f).Some?
    && (env.stp ==> f.dst !in {BPDU_STP, BPDU_PVST} && LearnsIn(Admit(env.tables, port, f).value.state))
  }

  /** One frame, handled in one step. */
  function Receive(db: Db, env: Env, port: nat, f: Frame, now: nat): (Db, Verdict) {
    match Admit(env.tables, port, f)
    case None => (db, Dropped)
    case Some(row) =>
      if env.stp && f.dst in {BPDU_STP, BPDU_PVST} then (db, Bpdu(row.vlan))
      else if env.stp && !LearnsIn(row.state) then (db, Dropped)
      else
        var learned := Learn(db, row.vlan, f.src, port, now);
        if env.stp && !ForwardsIn(row.state) then (learned, Dropped)
        else Route(learned, env, port, row.vlan, f, now)
  }

  class Fdb {
    var entries: Db

    /** The datapath's program, branch by branch. */
    method HandleRx(env: Env, port: nat, f: Frame, now: nat) returns (r: Verdict)
      modifies this
      ensures (entries, r) == Receive(old(entries), env, port, f, now)
    {
      var t := env.tables;
      if f.tagged && f.id < 0 { return Dropped; }
      if port !in t.ports { return Dropped; }
      var info, v, row := t.ports[port], if f.tagged then f.id else 0, PortVlan(0, DISABLED);
      if info.mode == ACCESS {
        if f.tagged { return Dropped; }
        if (port, WILDCARD) !in t.portVlan { return Dropped; }
        row := t.portVlan[(port, WILDCARD)];
        v := row.vlan;
      } else {
        if !f.tagged {
          if !info.nativeEnabled { return Dropped; }
          v := info.native;
        }
        if (port, v) !in t.portVlan { return Dropped; }
        row := t.portVlan[(port, v)];
      }
      if env.stp {
        if f.dst == BPDU_STP || f.dst == BPDU_PVST { return Bpdu(v); }
        if !LearnsIn(row.state) { return Dropped; }
      }
      var src := (v, f.src);
      if src !in entries || !entries[src].isStatic {
        if src in entries || |entries| < MAX_ENTRIES {
          entries := entries[src := Entry(now, port, false)];
        }
      }
      if env.stp && !ForwardsIn(row.state) { return Dropped; }
      var dst := (v, f.dst);
      if dst !in entries { return Flood(v); }
      if !entries[dst].isStatic {
        if Age(entries[dst], now) > env.agingTime {
          entries := entries - {dst};
          return Flood(v);
        }
        entries := entries[dst := entries[dst].(timestamp := now)];
      }
      var out := entries[dst].port;
      if out !in t.ports { return Dropped; }
      if out == port { return Dropped; }
      var d := FastPath(t, env.stp, out, v, f.tagged);
      if d == Drop { return Dropped; }
      r := Forward(v, out, d);
    }

    /** A static entry for an existing port; a full table takes no new key. */
    method AddEntry(v: nat, mac: nat, port: nat, now: nat, env: Env) returns (ok: bool)
      modifies this
      ensures ok <==> 0 < v <= 4094 && port in env.tables.ports
                      && ((v, mac) in old(entries) || |old(entries)| < MAX_ENTRIES)
      ensures entries == if ok then old(entries)[(v, mac) := Entry(now, port, true)] else old(entries)
    {
      if !ValidVlan(v) { return false; }
      if port !in env.tables.ports { return false; }
      if (v, mac) !in entries && |entries| >= MAX_ENTRIES { return false; }
      entries := entries[(v, mac) := Entry(now, port, true)];
      ok := true;
    }

    /** Removes the entries of a snapshot that belong to a port. */
    method FlushByPort(port: nat)
      modifies this
      ensures forall k :: k in entries <==> k in old(entries) && old(entries)[k].port != port
      ensures forall k :: k in entries ==> entries[k] == old(entries)[k]
      ensures entries == WithoutPort(old(entries), port)
    {
      var all := entries.Keys;
      while all != {}
        invariant all <= old(entries).Keys
        invariant entries == map k | k in old(entries) && (k in all || old(entries)[k].port != port) :: old(entries)[k]
        decreases all
      {
        var k :| k in all;
        if entries[k].port == port {
          entries := entries - {k};
        }
        all := all - {k};
      }
    }

    /** Removes the dynamic entries of a VLAN that are older than a limit. */
    method FlushOldEntries(v: nat, maxAge: nat, now: nat)
      modifies this
      ensures forall k :: k in entries <==>
                k in old(entries)
                && !(k.0 == v && !old(entries)[k].isStatic && (now - old(entries)[k].timestamp) % CLOCK > maxAge)
      ensures forall k :: k in entries ==> entries[k] == old(entries)[k]
      ensures entries == WithoutOld(old(entries), v, maxAge, now)
    {
      var all := entries.Keys;
      while all != {}
        invariant all <= old(entries).Keys
        invariant entries == map k | k in old(entries) && (k in all || !(k.0 == v && Stale(old(entries)[k], now,
                  maxAge)))
                               :: old(entries)[k]
        decreases all
      {
        var k :| k in all;
        if !entries[k].isStatic && k.0 == v && Age(entries[k], now) > maxAge {
          entries := entries - {k};
        }
        all := all - {k};
      }
    }

    /** Listing the database removes the entries it finds too old, and fails at the first
        other one whose port is not one of the bridge. */
    method GetEntryList(agingTime: nat, now: nat, ports: set<nat>)
      returns (ok: bool, list: set<(nat, nat)>, ghost reached: set<(nat, nat)>)
      modifies this
      ensures entries == WithoutAged(old(entries), agingTime, now, reached) && reached <= old(entries).Keys
      ensures ok <==> forall k :: k in old(entries) && !Stale(old(entries)[k], now, agingTime) ==>
                old(entries)[k].port in ports
      ensures ok ==> reached == old(entries).Keys && list == entries.Keys
      ensures ok ==> forall k :: k in list <==>
                k in old(entries)
                && (old(entries)[k].isStatic || (now - old(entries)[k].timestamp) % CLOCK <= agingTime)
    {
      var all := entries.Keys;
      ok, list, reached := true, {}, {};
      while all != {}
        invariant all <= old(entries).Keys && reached == old(entries).Keys - all
        invariant entries == WithoutAged(old(entries), agingTime, now, reached)
        invariant ok && list == entries.Keys - all
        invariant forall k :: k in list ==> old(entries)[k].port in ports
        decreases all
      {
        var k :| k in all;
        all, reached := all - {k}, reached + {k};
        if !entries[k].isStatic && Age(entries[k], now) > agingTime {
          entries := entries - {k};
        } else {
          if entries[k].port !in ports { return false, {}, reached; }
          list := list + {k};
        }
      }
    }
  }

  function WithoutPort(db: Db, port: nat): Db {
    map k | k in db && db[k].port != port :: db[k]
  }

  function WithoutOld(db: Db, v: nat, maxAge: nat, now: nat): Db {
    map k | k in db && !(k.0 == v && Stale(db[k], now, maxAge)) :: db[k]
  }

  /** Without those of the given keys whose entries are too old. */
  function WithoutAged(db: Db, agingTime: nat, now: nat, keys: set<(nat, nat)>): Db {
    map k | k in db && !(k in keys && Stale(db[k], now, agingTime)) :: db[k]
  }

  /** An entry stamped some time ago is too old exactly when it is dynamic and that time is
      longer than the limit, also when the clock has wrapped since. */
  lemma AgesByElapsed(e: Entry, elapsed: nat, limit: nat)
    requires elapsed < CLOCK
    ensures Stale(e, (e.timestamp + elapsed) % CLOCK, limit) <==> !e.isStatic && elapsed > limit
  {
    var now := (e.timestamp + elapsed) % CLOCK;
    var wraps := (e.timestamp + elapsed) / CLOCK;
    assert now - e.timestamp == elapsed - wraps * CLOCK;
    RemainderOf(elapsed, wraps);
  }

  lemma RemainderOf(x: nat, k: nat)
    requires x < CLOCK
    ensures (x - k * CLOCK) % CLOCK == x
  {
  }

  // ---------------------------------------------------- where frames go

  /** When a frame's source is learned. */
  lemma WhenLearned(env: Env, port: nat, f: Frame)
    ensures Learns(env, port, f) <==>
            Admit(env.tables, port, f).Some?
            && (env.stp ==> f.dst != BPDU_STP && f.dst != BPDU_PVST
                            && Admit(env.tables, port, f).value.state in {DISABLED, LEARNING, FORWARDING})
  {
    hide Admit;
  }

  /** Looking up the destination adds no entry and keeps those that are static or new. */
  lemma RouteKeeps(db: Db, env: Env, port: nat, v: nat, f: Frame, now: nat, key: (nat, nat))
    ensures var db' := Route(db, env, port, v, f, now).0;
            && (key !in db ==> key !in db')
            && (key in db && (db[key].isStatic || db[key].timestamp == now) ==> key in db' && db'[key] == db[key])
  {
    hide FastPath;
  }

  /** A frame that is admitted for learning has its source learned: the entry names the port
      and the time, unless a static entry is there or the table has no room.  Any other
      frame leaves the database as it is. */
  lemma SourceIsLearned(db: Db, env: Env, port: nat, f: Frame, now: nat)
    ensures var db' := Receive(db, env, port, f, now).0;
            if !Learns(env, port, f) then db' == db
            else
              var key := (Admit(env.tables, port, f).value.vlan, f.src);
              if key in db && db[key].isStatic then key in db' && db'[key] == db[key]
              else if HasRoom(db, key) then key in db' && db'[key] == Entry(now, port, false)
              else key !in db'
  {
    hide Admit, Route;
    if Learns(env, port, f) {
      var v := Admit(env.tables, port, f).value.vlan;
      RouteKeeps(Learn(db, v, f.src, port, now), env, port, v, f, now, (v, f.src));
    }
  }

  /** Whether a frame is looked up in the database. */
  predicate Routes(env: Env, port: nat, f: Frame) {
    Learns(env, port, f) && (env.stp ==> ForwardsIn(Admit(env.tables, port, f).value.state))
  }

  /** Where a frame to another address goes: a destination without an entry, or with one that
      is too old, is flooded and has none afterwards; otherwise the frame leaves through the
      entry's port, in its VLAN, exactly when that is another port and the datapath sends
      there, and a dynamic entry is stamped anew. */
  lemma DestinationDecides(db: Db, env: Env, port: nat, f: Frame, now: nat)
    requires Routes(env, port, f) && f.src != f.dst
    ensures var (db', r) := Receive(db, env, port, f, now);
            var v := Admit(env.tables, port, f).value.vlan;
            var key := (v, f.dst);
            if key !in db || Stale(db[key], now, env.agingTime) then r == Flood(v) && key !in db'
            else
              var d := FastPath(env.tables, env.stp, db[key].port, v, f.tagged);
              && (if d.Send? && db[key].port != port then r == Forward(v, db[key].port, d) else r == Dropped)
              && key in db' && db'[key] == if db[key].isStatic then db[key] else Entry(now, db[key].port, false)
  {
  }

  /** What happens to every other frame: a protocol frame goes to the instance of its VLAN
      when STP is on, a frame to its own source address never leaves as a unicast unless a
      static entry says so, and the rest is dropped. */
  lemma OtherFrames(db: Db, env: Env, port: nat, f: Frame, now: nat)
    ensures var r := Receive(db, env, port, f, now).1;
            && (r.Bpdu? <==> env.stp && f.dst in {BPDU_STP, BPDU_PVST} && Admit(env.tables, port, f).Some?)
            && (r.Bpdu? ==> r.vlan == Admit(env.tables, port, f).value.vlan)
            && (Routes(env, port, f) <==>
                  Learns(env, port, f) &&
                    (env.stp ==> Admit(env.tables, port, f).value.state in {DISABLED, FORWARDING}))
            && (!Routes(env, port, f) && !r.Bpdu? ==> r == Dropped)
            && (Routes(env, port, f) && f.src == f.dst ==>
                  var key := (Admit(env.tables, port, f).value.vlan, f.src);
                  && (r.Flood? <==> !HasRoom(db, key))
                  && (r.Forward? ==> key in db && db[key].isStatic && r.port == db[key].port))
  {
  }

  /** Whether a frame leaves through port `out`, on either path. */
  ghost predicate Leaves(r: Verdict, env: Env, confs: map<nat, Conf>, states: map<(nat, nat), StpState>, port: nat,
                         out: nat, tagged: bool) {
    match r
    case Forward(_, q, d) => out == q && d.Send?
    case Flood(v) =>
      out in confs && out != port
      && SlowPath(confs[out], env.stp, (out, v) in states && ForwardsIn(states[(out, v)]), v, tagged).Send?
    case _ => false
  }

  /** A frame leaves only through other ports that are members of the VLAN it was admitted
      into, and only if they forward. */
  lemma NeverLeaks(db: Db, env: Env, confs: map<nat, Conf>, states: map<(nat, nat), StpState>, port: nat, f: Frame,
                   now: nat, out: nat)
    requires Image(env.tables, confs) && (env.stp ==> Synced(env.tables, confs, states))
    requires Leaves(Receive(db, env, port, f, now).1, env, confs, states, port, out, f.tagged)
    ensures Admit(env.tables, port, f).Some? && out != port && out in confs && port in confs
    ensures var v := Admit(env.tables, port, f).value.vlan; confs[out].Member(v) && confs[port].Member(v)
    ensures env.stp ==> ForwardsIn(Admit(env.tables, port, f).value.state)
    ensures FastPath(env.tables, env.stp, out, Admit(env.tables, port, f).value.vlan, f.tagged).Send?
  {
    var v := Admit(env.tables, port, f).value.vlan;
    AdmittedIsMember(env.tables, confs, port, f);
    LeavesMembersOnly(env.tables, confs, env.stp, out, v, f.tagged);
    if out in confs {
      SameDecision(env.tables, confs, states, env.stp, (out, v) in states && ForwardsIn(states[(out, v)]), out, v,
        f.tagged);
    }
  }

  /** A flooded frame leaves through every other port for which the fast path would send
      it. */
  lemma FloodReachesAll(db: Db, env: Env, confs: map<nat, Conf>, states: map<(nat, nat), StpState>, port: nat, f: Frame,
                        now: nat, out: nat)
    requires Image(env.tables, confs) && (env.stp ==> Synced(env.tables, confs, states))
    requires Receive(db, env, port, f, now).1.Flood?
    ensures Leaves(Receive(db, env, port, f, now).1, env, confs, states, port, out, f.tagged)
       <==> out != port && FastPath(env.tables, env.stp, out, Admit(env.tables, port, f).value.vlan, f.tagged).Send?
  {
    var v := Admit(env.tables, port, f).value.vlan;
    LeavesMembersOnly(env.tables, confs, env.stp, out, v, f.tagged);
    if out in confs {
      SameDecision(env.tables, confs, states, env.stp, (out, v) in states && ForwardsIn(states[(out, v)]), out, v,
        f.tagged);
    }
  }

  // ------------------------------------------------------------- any run

  datatype Event =
    | Rx(port: nat, frame: Frame, now: nat)
    | AddStatic(vlan: nat, mac: nat, out: nat, now: nat)
    | FlushOld(vlan: nat, maxAge: nat, now: nat)
    | Read(now: nat, keys: set<(nat, nat)>)
    | FlushPort(port: nat)
    | Configure(env: Env)

  /** `seen` records every (VLAN, source, port) of a frame that was admitted for
      learning. */
  datatype State = State(db: Db, env: Env, seen: set<(nat, nat, nat)>)

  function Apply(s: State, e: Event): State {
    match e
    case Rx(port, f, now) =>
      s.(db := Receive(s.db, s.env, port, f, now).0,
         seen := if Learns(s.env, port, f)
                 then s.seen + {(Admit(s.env.tables, port, f).value.vlan, f.src, port)} else s.seen)
    case AddStatic(v, mac, out, now) =>
      if ValidVlan(v) && out in s.env.tables.ports && HasRoom(s.db, (v, mac))
      then s.(db := s.db[(v, mac) := Entry(now, out, true)]) else s
    case FlushOld(v, maxAge, now) => s.(db := WithoutOld(s.db, v, maxAge, now))
    case Read(now, keys) => s.(db := WithoutAged(s.db, s.env.agingTime, now, keys))
    case FlushPort(port) => s.(db := WithoutPort(s.db, port))
    case Configure(env) => s.(env := env)
  }

  function Run(s: State, events: seq<Event>): State
    decreases |events|
  {
    if events == [] then s else Run(Apply(s, events[0]), events[1..])
  }

  /** Every dynamic entry was learned from a frame with that source, admitted into that
      VLAN on that port. */
  ghost predicate Provenance(s: State) {
    forall k :: k in s.db && !s.db[k].isStatic ==> (k.0, k.1, s.db[k].port) in s.seen
  }

  lemma {:induction false} EveryEntryWasLearned(s: State, events: seq<Event>)
    requires Provenance(s)
    ensures Provenance(Run(s, events))
    decreases |events|
  {
    if events != [] {
      if events[0].Rx? { FrameKeepsProvenance(s, events[0].port, events[0].frame, events[0].now); }
      EveryEntryWasLearned(Apply(s, events[0]), events[1..]);
    }
  }

  lemma FrameKeepsProvenance(s: State, port: nat, f: Frame, now: nat)
    requires Provenance(s)
    ensures Provenance(Apply(s, Rx(port, f, now)))
  {
    var s' := Apply(s, Rx(port, f, now));
    forall k | k in s'.db && !s'.db[k].isStatic ensures (k.0, k.1, s'.db[k].port) in s'.seen {
      FrameChanges(s.db, s.env, port, f, now, k);
    }
  }

  /** What one frame can do to one entry: nothing, relearn its source, age out or refresh
      its destination. */
  lemma FrameChanges(db: Db, env: Env, port: nat, f: Frame, now: nat, k: (nat, nat))
    ensures var db' := Receive(db, env, port, f, now).0;
            && (k in db && db[k].isStatic ==> k in db' && db'[k] == db[k])
            && (k in db' && db'[k].isStatic ==> k in db && db[k] == db'[k])
            && (k in db' && (k !in db || db'[k].port != db[k].port) ==>
                  Learns(env, port, f) && k == (Admit(env.tables, port, f).value.vlan, f.src) && db'[k].port == port)
  {
  }

  /** Frames and ageing leave static entries as they are, and make none. */
  lemma StaticEntriesStay(s: State, e: Event)
    requires e.Rx? || e.FlushOld? || e.Read?
    ensures forall k :: k in s.db && s.db[k].isStatic ==> k in Apply(s, e).db && Apply(s, e).db[k] == s.db[k]
    ensures forall k :: k in Apply(s, e).db && Apply(s, e).db[k].isStatic ==> k in s.db && s.db[k].isStatic
  {
    if e.Rx? {
      forall k: (nat, nat) {:trigger k in s.db}
        ensures k in s.db && s.db[k].isStatic ==> k in Apply(s, e).db && Apply(s, e).db[k] == s.db[k]
      {
        FrameChanges(s.db, s.env, e.port, e.frame, e.now, k);
      }
      forall k: (nat, nat) | k in Apply(s, e).db ensures Apply(s, e).db[k].isStatic ==> k in s.db && s.db[k].isStatic {
        FrameChanges(s.db, s.env, e.port, e.frame, e.now, k);
      }
    }
  }

  // --------------------------------------- removing a port under traffic

  /** The destructor of a port has removed the port's row and now removes the entries of
      a snapshot, one at a time; frames and ageing go on in between. */
  datatype Removal = NotStarted | Removing(left: set<(nat, nat)>) | Failed

  datatype Step =
    | Traffic(event: Event)      // anything but this thread and a new configuration of the port
    | Snapshot
    | RemoveOne(key: (nat, nat)) // fails when the entry has gone meanwhile

  function Advance(s: State, r: Removal, port: nat, step: Step): (State, Removal) {
    match step
    case Traffic(e) => (Apply(s, e), r)
    case Snapshot => (s, if r.NotStarted? then Removing(set k | k in s.db && s.db[k].port == port) else r)
    case RemoveOne(k) =>
      if !r.Removing? || k !in r.left then (s, r)
      else if k !in s.db then (s, Failed)
      else (s.(db := s.db - {k}), Removing(r.left - {k}))
  }

  function Interleave(s: State, r: Removal, port: nat, steps: seq<Step>): (State, Removal)
    decreases |steps|
  {
    if steps == [] then (s, r)
    else
      var (s', r') := Advance(s, r, port, steps[0]);
      Interleave(s', r', port, steps[1..])
  }

  /** No step gives the port its row back. */
  ghost predicate WithoutPortRow(steps: seq<Step>, port: nat) {
    forall i :: 0 <= i < |steps| && steps[i].Traffic? && steps[i].event.Configure? ==>
        port !in steps[i].event.env.tables.ports
  }

  /** Only entries still to be removed name the port. */
  ghost predicate OnlyLeft(s: State, r: Removal, port: nat) {
    && port !in s.env.tables.ports
    && (r.Removing? ==> forall k :: k in s.db && s.db[k].port == port ==> k in r.left)
  }

  lemma AdvanceKeepsLeft(s: State, r: Removal, port: nat, step: Step)
    requires OnlyLeft(s, r, port) && WithoutPortRow([step], port)
    ensures OnlyLeft(Advance(s, r, port, step).0, Advance(s, r, port, step).1, port)
  {
    assert [step][0] == step;
    if step.Traffic? && step.event.Rx? {
      var e, db' := step.event, Apply(s, step.event).db;
      forall k | k in db' && db'[k].port == port ensures r.Removing? ==> k in r.left {
        FrameChanges(s.db, s.env, e.port, e.frame, e.now, k);
      }
    }
  }

  /** Once the removal finishes no entry names the port, whatever happened in between. */
  lemma {:induction false} RemovedPortIsForgotten(s: State, r: Removal, port: nat, steps: seq<Step>)
    requires OnlyLeft(s, r, port) && WithoutPortRow(steps, port)
    ensures var (s', r') := Interleave(s, r, port, steps);
            && OnlyLeft(s', r', port)
            && (r' == Removing({}) ==> forall k :: k in s'.db ==> s'.db[k].port != port)
    decreases |steps|
  {
    if steps != [] {
      var (s', r') := Advance(s, r, port, steps[0]);
      assert WithoutPortRow([steps[0]], port) && WithoutPortRow(steps[1..], port);
      AdvanceKeepsLeft(s, r, port, steps[0]);
      RemovedPortIsForgotten(s', r', port, steps[1..]);
    }
  }

  // ------------------------------------------- when the removal fails

  /** The frame is looked up in the database, where its destination has an entry among
      `left` that is too old. */
  predicate AgesOut(s: State, left: set<(nat, nat)>, port: nat, f: Frame, now: nat) {
    && Learns(s.env, port, f)
    && (s.env.stp ==> ForwardsIn(Admit(s.env.tables, port, f).value.state))
    && f.src != f.dst
    && var k := (Admit(s.env.tables, port, f).value.vlan, f.dst);
       k in left && k in s.db && Stale(s.db[k], now, s.env.agingTime)
  }

  /** Every entry still to be removed is there. */
  ghost predicate AllThere(s: State, r: Removal) {
    !r.Failed? && (r.Removing? ==> r.left <= s.db.Keys)
  }

  predicate Disturbs(s: State, r: Removal, step: Step) {
    r.Removing? && step.Traffic? && step.event.Rx? &&
      AgesOut(s, r.left, step.event.port, step.event.frame, step.event.now)
  }

  /** Flushing and reading exclude each other: both hold the database's mutex. */
  predicate Exclusive(r: Removal, step: Step) {
    r.Removing? && r.left != {} && step.Traffic? ==>
        !step.event.FlushOld? && !step.event.Read? && !step.event.FlushPort?
  }

  ghost predicate Scheduled(s: State, r: Removal, port: nat, steps: seq<Step>)
    decreases |steps|
  {
    steps == [] || (Exclusive(r, steps[0])
                    && Scheduled(Advance(s, r, port, steps[0]).0, Advance(s, r, port, steps[0]).1, port, steps[1..]))
  }

  ghost predicate Undisturbed(s: State, r: Removal, port: nat, steps: seq<Step>)
    decreases |steps|
  {
    steps == [] || (!Disturbs(s, r, steps[0])
                    && Undisturbed(Advance(s, r, port, steps[0]).0, Advance(s, r, port, steps[0]).1, port, steps[1..]))
  }

  /** A frame removes one of these entries exactly when it ages one out. */
  lemma FrameKeepsEntries(s: State, left: set<(nat, nat)>, port: nat, f: Frame, now: nat)
    requires left <= s.db.Keys
    ensures left <= Apply(s, Rx(port, f, now)).db.Keys <==> !AgesOut(s, left, port, f, now)
  {
  }

  lemma StepKeepsEntries(s: State, r: Removal, port: nat, step: Step)
    requires AllThere(s, r) && Exclusive(r, step)
    ensures var (s', r') := Advance(s, r, port, step);
            !r'.Failed? && (AllThere(s', r') <==> !Disturbs(s, r, step))
  {
    if r.Removing? && step.Traffic? && step.event.Rx? {
      FrameKeepsEntries(s, r.left, step.event.port, step.event.frame, step.event.now);
    }
  }

  /** The removal of some entry fails at the end or right after some earlier step. */
  ghost predicate CanFail(s: State, r: Removal, port: nat, steps: seq<Step>) {
    exists n: nat, k :: n <= |steps| && Interleave(s, r, port, steps[..n] + [RemoveOne(k)]).1 == Failed
  }

  ghost predicate FailsNow(s: State, r: Removal, port: nat) {
    exists k :: Advance(s, r, port, RemoveOne(k)).1 == Failed
  }

  lemma FailsNowIff(s: State, r: Removal, port: nat)
    requires !r.Failed?
    ensures FailsNow(s, r, port) <==> !AllThere(s, r)
  {
    if !AllThere(s, r) {
      var k :| k in r.left && k !in s.db;
      assert Advance(s, r, port, RemoveOne(k)).1 == Failed;
    }
  }

  lemma RunOne(s: State, r: Removal, port: nat, step: Step)
    ensures Interleave(s, r, port, [step]) == Advance(s, r, port, step)
  {
    assert [step][1..] == [];
  }

  lemma CanFailUnfolds(s: State, r: Removal, port: nat, steps: seq<Step>)
    ensures CanFail(s, r, port, steps) <==>
            FailsNow(s, r, port)
            || (steps != []
                && CanFail(Advance(s, r, port, steps[0]).0, Advance(s, r, port, steps[0]).1, port, steps[1..]))
  {
    forall k ensures Interleave(s, r, port, steps[..0] + [RemoveOne(k)]) == Advance(s, r, port, RemoveOne(k)) {
      RunOne(s, r, port, RemoveOne(k));
      assert steps[..0] + [RemoveOne(k)] == [RemoveOne(k)];
    }
    forall n: nat, k | 1 <= n <= |steps|
      ensures (steps[..n] + [RemoveOne(k)])[1..] == steps[1..][..n-1] + [RemoveOne(k)]
    {
    }
    if steps != [] {
      var (s1, r1) := Advance(s, r, port, steps[0]);
      if CanFail(s1, r1, port, steps[1..]) {
        var n: nat, k :| n <= |steps[1..]| && Interleave(s1, r1, port, steps[1..][..n] + [RemoveOne(k)]).1 == Failed;
        assert Interleave(s, r, port, steps[..n+1] + [RemoveOne(k)]).1 == Failed;
      }
    }
  }

  /** In every schedule: the removal can fail exactly when some frame ages out an entry
      still to be removed. */
  lemma {:induction false} RemovalCanFail(s: State, r: Removal, port: nat, steps: seq<Step>)
    requires AllThere(s, r) && Scheduled(s, r, port, steps)
    ensures CanFail(s, r, port, steps) <==> !Undisturbed(s, r, port, steps)
    ensures Undisturbed(s, r, port, steps) ==>
              AllThere(Interleave(s, r, port, steps).0, Interleave(s, r, port, steps).1)
    decreases |steps|
  {
    CanFailUnfolds(s, r, port, steps);
    FailsNowIff(s, r, port);
    if steps != [] {
      var (s1, r1) := Advance(s, r, port, steps[0]);
      StepKeepsEntries(s, r, port, steps[0]);
      if Disturbs(s, r, steps[0]) {
        FailsNowIff(s1, r1, port);
        CanFailUnfolds(s1, r1, port, steps[1..]);
      } else {
        RemovalCanFail(s1, r1, port, steps[1..]);
      }
    }
  }

  lemma DisturbedNext(s: State, r: Removal, port: nat, step: Step)
    requires AllThere(s, r) && Disturbs(s, r, step)
    ensures CanFail(s, r, port, [step])
  {
    hide AgesOut, CanFail;
    var (s', r') := Advance(s, r, port, step);
    StepKeepsEntries(s, r, port, step);
    FailsNowIff(s', r', port);
    CanFailUnfolds(s, r, port, [step]);
    CanFailUnfolds(s', r', port, [step][1..]);
  }

  /** Two access ports of one VLAN, and an entry of the port that is removed: a frame from
      the other one disturbs the removal once the entry is too old. */
  lemma OldEntryDisturbs(now: nat)
    requires 300 < now < CLOCK
    ensures var tables := Tables(map[(1, WILDCARD) := PortVlan(1, DISABLED)], map[1 := PortInfo(ACCESS, 1, true)]);
            var s := State(map[(1, 0xAA) := Entry(0, 2, false)], Env(tables, false, 300), {});
            CanFail(s, NotStarted, 2, [Snapshot, Traffic(Rx(1, Frame(0xAA, 0xBB, false, 0), now))])
  {
    var tables := Tables(map[(1, WILDCARD) := PortVlan(1, DISABLED)], map[1 := PortInfo(ACCESS, 1, true)]);
    var s := State(map[(1, 0xAA) := Entry(0, 2, false)], Env(tables, false, 300), {});
    var rx := Traffic(Rx(1, Frame(0xAA, 0xBB, false, 0), now));
    var steps, r := [Snapshot, rx], Removing({(1, 0xAA)});
    assert (set k | k in s.db && s.db[k].port == 2) == r.left;
    assert steps[1..] == [rx] && Advance(s, NotStarted, 2, Snapshot) == (s, r);
    assert Disturbs(s, r, rx);
    DisturbedNext(s, r, 2, rx);
    CanFailUnfolds(s, NotStarted, 2, steps);
  }
}
